# MEVN student portal: authentication core in Dafny

This project models the authentication core of the MEVN student portal.
The portal is an Express/Mongoose backend with a Vue front end.

- **Student numbers and temporary passwords:** `generateStudentNumber` and `generateTemporaryPassword`.
- **The Student model:**
  - its setters, defaults and validators;
  - the pre-save hook that assigns a number and hashes the password;
  - `comparePassword`.
- **The mounted auth routes:**
  - the bearer-token middleware;
  - `POST /register` and `POST /login`;
  - `GET /logs/:studentNumber`.
- **The unmounted controller:** `register` and `login`.
- **The Vue router:** its route table and its `beforeEach` guard.

Everything is pure functions over immutable values.

- **Requests and collections:**
  - A request is a `RequestBody` of optional fields. An omitted field is `None`.
  - The `students` and `logs` collections are sequences.
  - A handler maps them to a `Response` and the collections afterwards.
- **Arguments instead of I/O:**
  - The year, the clock, bcrypt salts and the new `_id` are arguments.
  - So are the outcome of the confirmation email, whether `bcrypt` is bound inside Student.js, and whether the hook's `mongoose.model('Student')` lookup resolves.
  - `jwt.verify` is a function argument that yields the `studentNumber` claim, or nothing for a bad token.
  - The random draws of the password generator are an argument.
- **bcrypt** is idealised as `Credentials.Secret`. A hash wraps its source and a salt, and `compare` accepts exactly the hashed candidate.
- **JavaScript semantics** are written out where the code depends on them, in modules `Text` and `Decimal`:
  - `parseInt` (with `NaN`), `toString`, `padStart(5, '0')`, `slice(-5)`;
  - UTF-16 `length`, `toLowerCase`, `trim`;
  - truthiness and `||` defaults;
  - MongoDB's string order.

The modules follow the source files:

| module | source file |
|---|---|
| `PasswordGenerator` | backend/utils/passwordGenerator.js |
| `StudentSchema` | backend/models/Student.js |
| `AuthRoutes` | backend/routes/auth.js |
| `AuthController` | backend/controllers/authController.js |
| `ClientRouter` | frontend/src/router/index.js |
| `ActivityLog` | the `Log` entries and the logs query |
| `EmailPattern` | the registration email regex, as an automaton proved equal to the pattern's language |
| `Http` | request, response, token and collection shapes |

Where the code and its own comments disagree, the model follows the code:

- **Student number format.** The doc comment of `generateStudentNumber` gives an 11-digit example. The code produces the year plus five digits: nine characters for a four-digit year.
- **Number allocation.** There is no retry on a uniqueness conflict. A duplicate number makes the save fail, and the handler answers 500.
- **Which number is stored.** `/register` does not pass its generated number to the model. The stored number is the hook's `YYYY-NNNNN`, while the response reports the generated `YYYYNNNNN`.

Other observations:

- **Course.** The route does not check `course`, but the schema requires it. A registration without a course passes the route's checks and ends in a 500.
- **Short passwords in the controller.** The controller leaves password length to the schema. A short password there is a 500, not a 400.
- **Login logs.** Login attempts are logged under the email as typed. A student who logs in with their email never sees those attempts under their number. In the other direction, `/login` only checks that the email is non-empty, so anyone who types a student number as the email of an unknown account adds a LOGIN_FAILED entry that `/logs/<student number>` shows.
- **Guard spelling.** The router matches paths case-insensitively, but the guard compares `to.path` as typed. With a token, `/LOGIN` still shows the login page.

## Model

| member | source | states |
|---|---|---|
| PasswordGenerator.GenerateTemporaryPassword | backend/utils/passwordGenerator.js:7-18 | the password has 12 characters, and character i is the charset character the i-th draw picks, so every character is from the charset |
| PasswordGenerator.EveryPasswordReachable | backend/utils/passwordGenerator.js:8-15 | every 12-character string over the charset is produced by some sequence of draws |
| PasswordGenerator.YearPrefix | backend/utils/passwordGenerator.js:27-28 | the year prefix is a non-empty digit string whose value is the year, with no leading zero |
| PasswordGenerator.FourDigitYear | backend/utils/passwordGenerator.js:27-28 | years 1000 to 9999 give a four-character prefix |
| PasswordGenerator.LastWithPrefix | backend/utils/passwordGenerator.js:31-33 | the query finds nothing exactly when no number starts with the year prefix; otherwise it finds a number with the prefix that is greatest in string order among them |
| PasswordGenerator.GenerateStudentNumber | backend/utils/passwordGenerator.js:26-44 | the number starts with the year; with no same-year number it is prefix + "00001"; otherwise it is one past the parsed last five characters of the greatest same-year number |
| PasswordGenerator.FormatWidth | backend/utils/passwordGenerator.js:42 | a sequence below 100000 is written as the prefix and exactly five digits whose value is the sequence |
| PasswordGenerator.FormatRoundTrip | backend/utils/passwordGenerator.js:37-42 | parseInt of the last five characters of a formatted number gives back its sequence |
| PasswordGenerator.PaddingNeverTruncates | backend/utils/passwordGenerator.js:42 | from 100000 on, padStart keeps every digit, and the number grows past nine characters |
| PasswordGenerator.LexOrderIsSequenceOrder | backend/utils/passwordGenerator.js:31-33 | among well-formed numbers of one year, descending string order is descending sequence order |
| PasswordGenerator.GenerateAfterLast | backend/utils/passwordGenerator.js:35-42 | after a well-formed last number with sequence s, the next number is well-formed with sequence s + 1 |
| PasswordGenerator.GeneratedNumberIsFresh | backend/utils/passwordGenerator.js:31-42 | when the same-year numbers are well-formed and below 99999, the new number is well-formed, above every one of them, and not already taken |
| PasswordGenerator.SequentialAllocationIncreases | backend/utils/passwordGenerator.js:31-42 | once a generated number is stored, the next one generated is strictly greater in string and sequence order |
| PasswordGenerator.NineDigitNumbers | backend/utils/passwordGenerator.js:20-42 | for a four-digit year the number has nine characters, all digits, not the eleven of the doc comment |
| PasswordGenerator.OtherYearsIgnored | backend/utils/passwordGenerator.js:31-33 | numbers of other years do not change the generated number |
| Decimal.LexOrderIsNumericOrder | backend/utils/passwordGenerator.js:33 | for equal-length digit strings, string order is numeric order |
| Decimal.ParseIntOfDigits | backend/utils/passwordGenerator.js:37 | parseInt of a non-empty digit string is its decimal value |
| Decimal.NumberToStringRoundTrip | backend/utils/passwordGenerator.js:37-42 | parseInt inverts toString on integers |
| Decimal.PadStart | backend/utils/passwordGenerator.js:42 | padStart keeps the string as a suffix and pads to the width with the fill character, never cutting |
| Decimal.SliceLast | backend/utils/passwordGenerator.js:37 | slice(-k) is the last k characters, or the whole string when it is shorter |
| Text.Trim | backend/models/Student.js:14-17 | the trimmed value is a slice of the input with only white space cut off at either end, and neither of its ends is white space |
| Text.ToLower | backend/routes/auth.js:108 | each character is lower-cased in place: ASCII upper-case letters map to their lower-case letter and every other character is kept |
| Text.TrimIdempotent | backend/models/Student.js:14-17 | trimming a trimmed value changes nothing |
| Text.TrimCommutesWithLower | backend/models/Student.js:35-41 | lower-casing and trimming can be applied in either order |
| Text.ToLowerIdempotent | backend/routes/auth.js:108 | lower-casing twice is lower-casing once |
| StudentSchema.NormalizeEmail | backend/models/Student.js:35-41 | a stored email is the lower-cased input with only surrounding white space dropped: no ASCII upper-case letters and no white space at either end |
| StudentSchema.NormalizeEmailIdempotent | backend/models/Student.js:39-40 | the email setters leave a stored email unchanged |
| StudentSchema.Cast | backend/models/Student.js:14-74 | building the document trims fullName, course, religion, mobile and address, normalises the email, fills each omitted path with its default, and keeps gender, yearLevel, birthDate, the password and the number as given |
| StudentSchema.CastStable | backend/models/Student.js:14-74 | building a document again from a built one changes nothing: the setters are stable |
| StudentSchema.Validate | backend/models/Student.js:14-69 | there are no violations exactly when the document is valid, and each violation appears exactly when its path fails (required, enum, minlength) |
| StudentSchema.HookStudentNumber | backend/models/Student.js:83-86 | the hook's number is the year, a hyphen and at least five digits whose value is count + 1 |
| StudentSchema.HookNumberShape | backend/models/Student.js:83-86 | for a four-digit year and count below 99999 the number has ten characters with a hyphen at index 4 |
| StudentSchema.HookNumberInjective | backend/models/Student.js:83-86 | different year and count pairs give different numbers |
| StudentSchema.HookNumberIsHookShaped | backend/models/Student.js:85-86 | every hook number is not all digits and ends in five digits |
| StudentSchema.PreSave | backend/models/Student.js:80-94 | a number is assigned only to a new document without one, and the hook throws if the model lookup for the count fails; a modified password is hashed once; unbound bcrypt throws; nothing else changes |
| StudentSchema.SaveNew | backend/models/Student.js:6-94 | a save succeeds only for a valid document with a free email and number, and stores the hook's result; an invalid document, unbound bcrypt, or a failing model lookup for a numberless document fails |
| StudentSchema.UnboundBcryptFailsEverySave | backend/models/Student.js:90-93 | with bcrypt unbound in the hook, every save fails |
| StudentSchema.BoundBcryptHashesOnce | backend/models/Student.js:80-94 | with bcrypt bound and the model lookup resolving, a valid document whose email and number are free saves with its password hashed exactly once; the number is its own, or the hook's when it has none |
| StudentSchema.ComparePassword | backend/models/Student.js:97-99 | the method throws exactly when bcrypt is unbound or there is no password, and is true exactly for the hashed candidate |
| StudentSchema.SavedPasswordCompares | backend/models/Student.js:89-99 | a document saved from a plain password accepts exactly that password |
| StudentSchema.FindByEmail | backend/routes/auth.js:230 | the lookup finds a stored document whose email equals the normalised query, and finds nothing exactly when there is none |
| StudentSchema.FindByNumber | backend/routes/auth.js:33 | the lookup finds a stored document with that number, and finds nothing exactly when there is none |
| Credentials.Hash | backend/routes/auth.js:124-125 | a hash accepts a candidate exactly when it hashed that plain candidate |
| Credentials.SaltedHashesDiffer | backend/routes/auth.js:124-125 | two salts give different hashes, and both accept the password |
| Credentials.DoubleHashMatchesNothing | backend/models/Student.js:90-93 | no candidate matches a hash of a hash |
| EmailPattern.TestEmail | backend/routes/auth.js:88-89 | the check accepts exactly the strings of the pattern: a non-empty local part, one @, a domain with a dot that has characters on both sides, no white space |
| Http.Sign | backend/routes/auth.js:275-279 | a token names its subject and expires seven days after it was issued |
| AuthRoutes.Authenticate | backend/routes/auth.js:14-53 | a missing or non-Bearer header is a 401 "No token provided"; success means a Bearer header whose token decodes to a stored student's number; the attached student has no password |
| AuthRoutes.BearerTokenIsTheRest | backend/routes/auth.js:19-40 | for "Bearer t", the answer depends only on verify(t) and the store: bad token, unknown number, or that student |
| AuthRoutes.RegisterCheck | backend/routes/auth.js:78-115 | all checks pass exactly when the three fields are present, the email matches the pattern, the password has six UTF-16 units and the email is free; each failure gets its message in order |
| AuthRoutes.NewStudentInput | backend/routes/auth.js:130-141 | the handler passes its own hash and no number; the corrected one passes the plain password and the generated number |
| AuthRoutes.Admit | backend/routes/auth.js:117-191 | after the checks, the answer is 201 with one new student and one REGISTRATION entry under the generated number, or 500 with nothing written; missing course or unbound bcrypt gives 500 |
| AuthRoutes.SaveFor | backend/routes/auth.js:122-145 | the handler's save fails without bcrypt in the hook, without a course, or, as written, when the hook's model lookup throws |
| AuthRoutes.SavedSecrets | backend/routes/auth.js:122-145 | a saved student holds, as written, the hook's number and the password hashed twice; corrected, the generated number and the password hashed once |
| AuthRoutes.Register | backend/routes/auth.js:60-205 | only a 201 writes; it adds one student with the request's email, the hook's number and a double hash, one log entry, and reports the generated number; unbound bcrypt or a failing model lookup in the hook gives 500 |
| AuthRoutes.RegisterFixed | backend/routes/auth.js:117-191 | the corrected handler stores the generated number and a single hash of the plain password, with no conflicting document |
| AuthRoutes.Login | backend/routes/auth.js:212-314 | students never change; 400 exactly for a missing field; an unknown email and a wrong password give the same 401, logged as LOGIN_FAILED with "Invalid email" and "Invalid password"; 200 exactly when the password matches the stored value of the student the email lookup finds, with a token and summary naming that student's number; each attempt is logged under the typed email |
| AuthRoutes.Logs | backend/routes/auth.js:379-397 | the answer is LogsFor's: at most 50 logged entries of that number, newest first, and all of them when there are at most 50 |
| AuthRoutes.RegisterNeverSucceedsAsWritten | backend/routes/auth.js:143-144 | with bcrypt unbound or the model lookup failing in the hook, registration answers 400 or 500 and writes nothing |
| AuthRoutes.RouteRegisteredCannotLogIn | backend/routes/auth.js:124-140 | an account registered through the route gets 401 when logging in with its own password |
| AuthRoutes.RegisterFixedThenLoginSucceeds | backend/routes/auth.js:212-301 | after the corrected registration, login with the same email and password is 200, and its token names the reported number |
| AuthRoutes.GeneratedFromHookNumbers | backend/utils/passwordGenerator.js:31-42 | next to hook-made numbers, the generated number is all digits |
| AuthRoutes.RegisterKeepsHookMade | backend/routes/auth.js:130-144 | registration keeps every stored number in the hook's hyphenated shape |
| AuthRoutes.ResponseNumberIsNotStored | backend/routes/auth.js:119-189 | the reported number differs from the stored one and no student has it |
| AuthRoutes.RegisterFixedReportsStoredNumber | backend/routes/auth.js:119-189 | with the correction, the reported number finds the new student |
| AuthRoutes.LoginNotInNumberLogs | backend/routes/auth.js:236-288 | a login leaves the logs answer of any student number other than the typed email unchanged |
| AuthRoutes.NumberTypedAsEmailIsLogged | backend/routes/auth.js:220-246 | a student number typed as the email of an unknown account gets the 401 and a LOGIN_FAILED "Invalid email" entry appended to that number's entries, so its log is no longer empty and shows the entry while it holds fewer than 50 |
| AuthRoutes.LoginTokenOpensMiddleware | backend/routes/auth.js:275-279 | a token from a successful login opens the middleware and yields the student with the signed number |
| ActivityLog.EntriesForCounts | backend/routes/auth.js:381-382 | the query keeps every entry of the number as often as the log holds it, and nothing else |
| ActivityLog.EntriesForAppend | backend/routes/auth.js:381-382 | a new entry appears only among its own number's entries |
| ActivityLog.AppendedEntryShown | backend/routes/auth.js:381-383 | an entry appended under a number is the last of that number's entries, and the number's log shows it while it holds fewer than 50 |
| ActivityLog.SortNewestFirst | backend/routes/auth.js:383 | the sort is a newest-first permutation of its input |
| ActivityLog.LogsFor | backend/routes/auth.js:381-383 | only that number's entries, newest first, 50 when there are more, none left out that is newer than one returned |
| ActivityLog.LogsForOfSameEntries | backend/routes/auth.js:381-383 | the answer depends on the log only through that number's entries |
| AuthController.RegisterCheck | backend/controllers/authController.js:29-46 | all checks pass exactly when the five fields are present, the passwords match, the terms are true and the email is free; each failure gets its message in order |
| AuthController.CreateInput | backend/controllers/authController.js:49-61 | the controller passes the plain password, the terms flag and no number |
| AuthController.Register | backend/controllers/authController.js:12-80 | only a 201 writes; the new student has the hook's number and a single hash; the token names the new `_id`; a short password, unbound bcrypt or a failing model lookup is a 500 |
| AuthController.Login | backend/controllers/authController.js:83-120 | 400 exactly for a missing field; one 401 message for an unknown email or a wrong password; 200 exactly when the password matches, with a token naming the `_id`; a known student with a wrong password is the 401, and one whose password is missing, or whose compare cannot run, is the 500 |
| AuthController.RegisterThenLogin | backend/controllers/authController.js:49-115 | with bcrypt bound, an account from register logs in with its password, and both answers name the same document |
| AuthController.UnboundBcryptBreaksBoth | backend/controllers/authController.js:49-101 | with bcrypt unbound, register never answers 201 and a login that reaches the password check is a 500 |
| ClientRouter.OnlyDashboardProtected | frontend/src/router/index.js:6-34 | a typed path resolves to a target that requires a login exactly when it matches the dashboard record; / goes through its redirect to the public login page |
| ClientRouter.MatchIn | frontend/src/router/index.js:31-34 | the matched record is in the table and matches, and nothing matches exactly when no record does |
| ClientRouter.Resolve | frontend/src/router/index.js:6-34 | unmatched paths get empty meta, matched ones keep the typed path and the record's meta, and a redirect record goes to its target |
| ClientRouter.Guard | frontend/src/router/index.js:40-67 | a protected route without a token goes to /login; otherwise /login or /register with a token goes to /dashboard; everything else is allowed |
| ClientRouter.NoTokenNeverDashboard | frontend/src/router/index.js:48-61 | without a token the guard never redirects to the dashboard |
| ClientRouter.NoRedirectLoop | frontend/src/router/index.js:40-67 | navigating to the guard's redirect target with the same token is allowed |
| ClientRouter.DashboardNeedsToken | frontend/src/router/index.js:23-27 | the dashboard, however spelled, is shown only with a token |
| ClientRouter.RootGoesToLogin | frontend/src/router/index.js:7-10 | / resolves to the login page, which a token holder is then sent away from |
| ClientRouter.SpellingSkipsLoggedInRedirect | frontend/src/router/index.js:56 | with a token, /login is redirected but /LOGIN, which matches the same record, is allowed |

## Left out

- emailService: the confirmation email is a boolean argument, so its I/O and templates are not modelled.
- Server wiring:
  - server.js, the database connections and the /api prefix are not modelled.
  - The controller is modelled even though no route mounts it.
- The `/me` and student routes of auth.js, and studentController.js, are outside this model.
- Concurrency:
  - Each handler is one atomic step on the collections.
  - The read-then-write race between `generateStudentNumber`, the hook's count and the unique index is not modelled.
  - The code has no retry loop, so none is modelled.
- Failed `Log.create` calls:
  - The registration log can fail without failing the request; the model always writes the entry.
  - Login log failures that would give a 500 are not modelled.
- The hook's model lookup:
  - The hook counts through `mongoose.model('Student')` on the default Mongoose instance, but Student.js registers the model only on its own connection (Student.js:4,101).
  - Whether that lookup resolves depends on the Mongoose version. In Mongoose 6 and later it throws a MissingSchemaError, so every save of a document without a number fails.
  - The flag `modelResolves` of the save environment covers both outcomes. When it resolves, the count is taken as the number of stored students; the Mongoose 5 case of counting through another connection is not modelled.
- `birthDate` is kept as the given text: Date casting and its cast errors are not modelled. `timestamps` are not modelled.
- Request field types: every field except `agreeTerms` is either absent or a string, and `agreeTerms` is either absent or a boolean. A `null` field and other JSON types are not modelled; for example the string "false" for `agreeTerms` is truthy in the controller (authController.js:38).
- The 500 response of /register also carries `error: error.message` when `NODE_ENV` is `development` (backend/routes/auth.js:199-203). The model's 500 body omits it, since the environment mode and the error text are not modelled.
- Decimal.SliceLast: counts code points, where JavaScript's `slice(-5)` counts UTF-16 code units. The two differ only when the last five characters hold a character outside the Basic Multilingual Plane. In the modelled paths, numbers come from the generator or the hook, which write only ASCII digits and '-'; a number stored by other means with such a character is not modelled.
- Case mapping is ASCII only, and `trim` uses the JavaScript white-space set.
- `toString` of numbers at or beyond 1e21 (exponent notation) is not modelled.
- bcrypt's 72-byte input limit and its cost factor are not modelled. Salts are arguments.
- Credentials.DoubleHashMatchesNothing: holds only in the idealised hash, where a hash is not a string. Real `bcrypt.compare(h, bcrypt.hash(h))` is true for the hash text h itself. The lemma's point is that the registered plain password never matches.
- Tokens:
  - JWT signing and the secret are abstracted.
  - `verify` is an argument, which also covers expiry.
  - A token that verifies but has no `studentNumber` claim, such as one from the controller, is not modelled.
- Mongoose query casting: lookups by email apply the path's `lowercase` and `trim` setters to the query value. This is Mongoose's default for query casting and is taken as given.
- Ties in timestamps: the model fixes one newest-first order, while MongoDB may return equal timestamps in any order.
- The Vue components and `localStorage` itself are not modelled. The token is the value read from it.
- AuthRoutes.Logs: its 500 branch, a failing `Log.find`, is not modelled.
- PasswordGenerator.GenerateTemporaryPassword: `crypto.randomInt` is replaced by the draws argument, so randomness and its uniformity are not stated.

## Findings

| source | as written | input that shows it | evidently intended | confidence | as-written member | corrected member |
|---|---|---|---|---|---|---|
| backend/models/Student.js:90-93 | the pre-save hook calls `bcrypt.genSalt` and `bcrypt.hash`, but Student.js never requires bcrypt, so the hook throws | any valid new student, e.g. fullName "Ann", email "ann@x.io", course "BSIT", password "secret1" | require bcryptjs in Student.js so the hook hashes the password; for a document without a number the hook's `mongoose.model('Student')` lookup must resolve as well, which Mongoose 6 and later refuse for a model registered only on another connection | not executed | StudentSchema.UnboundBcryptFailsEverySave | StudentSchema.BoundBcryptHashesOnce |
| backend/routes/auth.js:124-140 | `/register` stores its own bcrypt hash, and the hook hashes that value again | register email "ann@x.io" with password "secret1", then log in with the same pair: 401 | pass the plain password and let the hook hash it once | not executed | AuthRoutes.RouteRegisteredCannotLogIn | AuthRoutes.RegisterFixedThenLoginSucceeds |
| backend/routes/auth.js:119-189 | the generated number is logged and returned but not passed to `new Student`, so the hook stores `YYYY-NNNNN` instead | the first registration of 2026 in an empty collection reports "202600001" but stores "2026-00001" | pass `studentNumber` to `new Student` | not executed | AuthRoutes.ResponseNumberIsNotStored | AuthRoutes.RegisterFixedReportsStoredNumber |
