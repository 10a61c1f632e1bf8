/** The mounted authentication routes of backend/routes/auth.js: the bearer
    token middleware, `POST /register`, `POST /login` and
    `GET /logs/:studentNumber`. Each handler is a function from the
    collections and the request to the response and the collections after
    it; the clock, the salts, the new `_id` and the outcome of the
    confirmation email are arguments, and `jwt.verify` is a function
    argument. */
module AuthRoutes {
  import opened Wrappers
  import opened Text
  import opened Decimal
  import opened Credentials
  import opened PasswordGenerator
  import opened StudentSchema
  import opened EmailPattern
  import opened ActivityLog
  import opened Http

  const BearerPrefix: string := "Bearer "

  /** The route's own password length check. */
  const RouteMinPasswordLength: nat := 6

  const NoTokenMessage: string := "No token provided"
  const UnknownStudentMessage: string := "Invalid token"
  const BadTokenMessage: string := "Invalid or expired token"
  const MissingFieldsMessage: string := "Please provide all required fields (name, email, password)"
  const BadEmailMessage: string := "Please provide a valid email address"
  const ShortPasswordMessage: string := "Password must be at least 6 characters long"
  const EmailTakenMessage: string := "Email address is already registered"
  const RegisterErrorMessage: string := "Server error during registration. Please try again later."
  const EmailSentMessage: string := "Registration successful! Check your email for confirmation."
  const CanLoginMessage: string := "Registration successful! You can now login."
  const MissingCredentialsMessage: string := "Please provide email and password"
  const BadCredentialsMessage: string := "Invalid credentials"
  const LoginErrorMessage: string := "Server error during login. Please try again later."
  const LoginOkMessage: string := "Login successful"
  const RegisteredDetails: string := "New student registered: "
  const UnknownEmailDetails: string := "Invalid email"
  const WrongPasswordDetails: string := "Invalid password"
  const LoggedInDetails: string := "Student logged in successfully"

  // ---------------------------------------------------------------------
  // authMiddleware

  /** `authMiddleware`: a header that is not `Bearer <token>` is refused
      before anything else; otherwise `verify` decodes the token to the
      student number it carries (or fails), and the student with that
      number, without the password path, is attached to the request. */
  function Authenticate(header: Option<string>, verify: string -> Option<string>, store: seq<Student>): (r: Result<Student, Response>)
    ensures !(header.Some? && StartsWith(header.value, BearerPrefix)) ==> r == Failure(Error(401, NoTokenMessage))
    ensures r.Failure? ==> r.error.status == 401 && r.error.token.None?
    ensures r.Success? ==>
      exists t :: header == Some(BearerPrefix + t) && verify(t).Some? && r.value.studentNumber == verify(t)
    ensures r.Success? ==>
      r.value.password.None? && exists s :: s in store && s.(password := None) == r.value
  {
    if !Truthy(header) || !StartsWith(header.value, BearerPrefix) then Failure(Error(401, NoTokenMessage))
    else
      var token := header.value[|BearerPrefix|..];
      assert header.value == BearerPrefix + token;
      match verify(token)
      case None => Failure(Error(401, BadTokenMessage))
      case Some(n) =>
        match FindByNumber(store, n)
        case None => Failure(Error(401, UnknownStudentMessage))
        case Some(s) => Success(s.(password := None))
  }

  /** The token is exactly what follows `Bearer `: the middleware's answer
      for `Bearer t` is decided by `verify(t)` and the store. */
  lemma BearerTokenIsTheRest(t: string, verify: string -> Option<string>, store: seq<Student>)
    ensures verify(t).None? ==> Authenticate(Some(BearerPrefix + t), verify, store) == Failure(Error(401, BadTokenMessage))
    ensures verify(t).Some? && FindByNumber(store, verify(t).value).None? ==>
      Authenticate(Some(BearerPrefix + t), verify, store) == Failure(Error(401, UnknownStudentMessage))
    ensures verify(t).Some? && FindByNumber(store, verify(t).value).Some? ==>
      Authenticate(Some(BearerPrefix + t), verify, store) == Success(FindByNumber(store, verify(t).value).value.(password := None))
  {
    var h := BearerPrefix + t;
    assert StartsWith(h, BearerPrefix);
    assert h[|BearerPrefix|..] == t;
  }

  // ---------------------------------------------------------------------
  // POST /register

  /** What the registration handler depends on besides the request: the
      year and time, the salt of its own `bcrypt.hash`, the salt of the
      hook's, the `_id` of the new document, whether `bcrypt` and
      `mongoose.model('Student')` resolve in the hook, and whether the
      confirmation email went out. */
  datatype RegisterEnv = RegisterEnv(
    year: nat, now: nat, salt: nat, hookSalt: nat, objectId: string,
    bcryptInScope: bool, modelResolves: bool, emailSent: bool)

  function SaveEnvOf(env: RegisterEnv): SaveEnv {
    SaveEnv(env.year, env.hookSalt, env.bcryptInScope, env.modelResolves)
  }

  /** No stored student has this email once the schema's setters ran. */
  predicate EmailFree(store: seq<Student>, email: string) {
    forall s :: s in store ==> s.email != Some(NormalizeEmail(email))
  }

  /** Lower-casing the query first does not change the lookup key. */
  lemma NormalizeLowered(email: string)
    ensures NormalizeEmail(ToLower(email)) == NormalizeEmail(email)
  {
    ToLowerIdempotent(email);
  }

  /** The handler looks up the lower-cased email, which finds nothing
      exactly when the email is free. */
  lemma LoweredLookupFree(store: seq<Student>, email: string)
    ensures FindByEmail(store, ToLower(email)).None? <==> EmailFree(store, email)
  {
    NormalizeLowered(email);
  }

  /** The checks before anything is written, in the handler's order: the
      three required fields, the email pattern, the password length, a
      free email. `None` when all pass. */
  function RegisterCheck(db: Db, body: RequestBody): (r: Option<Response>)
    ensures r.None? <==>
      && Truthy(body.fullName) && Truthy(body.email) && Truthy(body.password)
      && MatchesEmailRegex(body.email.value)
      && Utf16Length(body.password.value) >= RouteMinPasswordLength
      && EmailFree(db.students, body.email.value)
    ensures !(Truthy(body.fullName) && Truthy(body.email) && Truthy(body.password)) ==>
      r == Some(Error(400, MissingFieldsMessage))
    ensures Truthy(body.fullName) && Truthy(body.email) && Truthy(body.password) && !MatchesEmailRegex(body.email.value) ==>
      r == Some(Error(400, BadEmailMessage))
    ensures (Truthy(body.fullName) && Truthy(body.email) && Truthy(body.password) && MatchesEmailRegex(body.email.value)
             && Utf16Length(body.password.value) < RouteMinPasswordLength) ==>
      r == Some(Error(400, ShortPasswordMessage))
    ensures (Truthy(body.fullName) && Truthy(body.email) && Truthy(body.password) && MatchesEmailRegex(body.email.value)
             && Utf16Length(body.password.value) >= RouteMinPasswordLength && !EmailFree(db.students, body.email.value)) ==>
      r == Some(Error(400, EmailTakenMessage))
    ensures r.Some? ==> r.value.status == 400 && r.value.token.None?
  {
    if !Truthy(body.fullName) || !Truthy(body.email) || !Truthy(body.password) then Some(Error(400, MissingFieldsMessage))
    else if !TestEmail(body.email.value) then Some(Error(400, BadEmailMessage))
    else if Utf16Length(body.password.value) < RouteMinPasswordLength then Some(Error(400, ShortPasswordMessage))
    else EmailTakenCheck(db.students, body.email.value)
  }

  /** The last check: the handler's lookup of the lower-cased email. */
  function EmailTakenCheck(store: seq<Student>, email: string): (r: Option<Response>)
    ensures r.None? <==> EmailFree(store, email)
    ensures r.Some? ==> r == Some(Error(400, EmailTakenMessage))
  {
    LoweredLookupFree(store, email);
    if FindByEmail(store, ToLower(email)).Some? then Some(Error(400, EmailTakenMessage))
    else None
  }

  /** The object handed to `new Student`. As written the handler passes its
      own hash and no student number; `fixed` passes the plain password and
      the generated number instead. */
  function NewStudentInput(body: RequestBody, number: string, salt: nat, fixed: bool): (input: StudentInput)
    requires Truthy(body.password)
    ensures input.email == body.email && input.fullName == body.fullName && input.course == body.course
    ensures input.studentNumber == (if fixed then Some(number) else None)
    ensures input.password == Some(if fixed then Plain(body.password.value) else Hash(Plain(body.password.value), salt))
    ensures input.agreeTerms.None?
  {
    StudentInput(
      if fixed then Some(number) else None,
      body.fullName,
      Or(body.birthDate, None),
      Or(body.gender, Some("")),
      Or(body.religion, Some("")),
      body.email,
      Or(body.mobile, Some("")),
      Or(body.address, Some("")),
      body.course,
      Or(body.yearLevel, Some("")),
      Some(if fixed then Plain(body.password.value) else Hash(Plain(body.password.value), salt)),
      None)
  }

  /** The number `generateStudentNumber` picks for this collection. */
  function NextNumber(db: Db, env: RegisterEnv): string {
    GenerateStudentNumber(env.year, StoredNumbers(db.students))
  }

  /** The handler's `new Student(...).save()`: it fails without `bcrypt`,
      without a course, or (as written) without the model lookup. */
  function SaveFor(db: Db, body: RequestBody, env: RegisterEnv, fixed: bool): (r: Result<Student, SaveError>)
    requires Truthy(body.fullName) && Truthy(body.email) && Truthy(body.password)
    ensures !env.bcryptInScope || !Present(TrimField(body.course)) || (!fixed && !env.modelResolves) ==> r.Failure?
    ensures r.Success? ==> env.bcryptInScope && (fixed || env.modelResolves)
  {
    var number := NextNumber(db, env);
    SaveOfBodyFails(db, body, env, fixed);
    SaveNew(NewStudentInput(body, number, env.salt, fixed), env.objectId, db.students, SaveEnvOf(env))
  }

  /** The save of the route's document fails without bcrypt, without a
      course, or, as written, when the hook's lookup fails. */
  lemma SaveOfBodyFails(db: Db, body: RequestBody, env: RegisterEnv, fixed: bool)
    requires Truthy(body.fullName) && Truthy(body.email) && Truthy(body.password)
    ensures !env.bcryptInScope || !Present(TrimField(body.course)) || (!fixed && !env.modelResolves) ==>
      SaveNew(NewStudentInput(body, NextNumber(db, env), env.salt, fixed), env.objectId, db.students, SaveEnvOf(env)).Failure?
  {
    BuiltFromBody(body, NextNumber(db, env), env.salt, fixed, env.objectId);
  }

  /** A saved student carries the request's email and name and is fresh in
      the store. */
  lemma SavedFromBody(db: Db, body: RequestBody, env: RegisterEnv, fixed: bool)
    requires Truthy(body.fullName) && Truthy(body.email) && Truthy(body.password)
    requires SaveFor(db, body, env, fixed).Success?
    ensures var saved := SaveFor(db, body, env, fixed).value;
      && saved.id == env.objectId
      && saved.email == Some(NormalizeEmail(body.email.value))
      && saved.fullName == Some(Trim(body.fullName.value))
      && !Conflicts(db.students, saved)
  {
    BuiltFromBody(body, NextNumber(db, env), env.salt, fixed, env.objectId);
  }

  /** A saved student holds the number and the password the handler and
      the hook give it: as written the hook's number and a double hash,
      corrected the generated number and a single hash. */
  lemma SavedSecrets(db: Db, body: RequestBody, env: RegisterEnv, fixed: bool)
    requires Truthy(body.fullName) && Truthy(body.email) && Truthy(body.password)
    requires SaveFor(db, body, env, fixed).Success?
    ensures var saved := SaveFor(db, body, env, fixed).value;
      && saved.password == Some(Hash(if fixed then Plain(body.password.value) else Hash(Plain(body.password.value), env.salt), env.hookSalt))
      && saved.studentNumber == Some(if fixed then NextNumber(db, env) else HookStudentNumber(env.year, |db.students|))
  {
    var number := NextNumber(db, env);
    assert fixed ==> Present(NewStudentInput(body, number, env.salt, fixed).studentNumber) by {
      assert |number| >= |YearPrefix(env.year)| >= 1;
    }
    BuiltFromBody(body, number, env.salt, fixed, env.objectId);
  }

  /** The document `new Student(...)` builds from the handler's object. */
  lemma BuiltFromBody(body: RequestBody, number: string, salt: nat, fixed: bool, id: string)
    requires Truthy(body.fullName) && Truthy(body.email) && Truthy(body.password)
    ensures var d := Cast(NewStudentInput(body, number, salt, fixed), id);
      && d.id == id
      && d.email == Some(NormalizeEmail(body.email.value))
      && d.fullName == Some(Trim(body.fullName.value))
      && d.course == TrimField(body.course)
      && d.studentNumber == (if fixed then Some(number) else None)
  {
  }

  /** What the handler does once the checks passed: pick the number,
      build and save the document, log, answer. Only a 201 writes. */
  function Admit(db: Db, body: RequestBody, env: RegisterEnv, fixed: bool): (out: Outcome)
    requires Truthy(body.fullName) && Truthy(body.email) && Truthy(body.password)
    ensures out.response.status in {201, 500}
    ensures out.response.status == 500 ==> out == Outcome(Error(500, RegisterErrorMessage), db)
    ensures !env.bcryptInScope || !Present(TrimField(body.course)) || (!fixed && !env.modelResolves) ==>
      out.response.status == 500
    ensures out.response.status == 201 ==>
      && env.bcryptInScope && (fixed || env.modelResolves)
      && |out.db.students| == |db.students| + 1
      && out.db.students == db.students + [out.db.students[|db.students|]]
      && out.db.logs == db.logs + [LogEntry(NextNumber(db, env), Registration, env.now, RegisteredDetails + body.fullName.value)]
    ensures out.response.status == 201 ==>
      var saved := out.db.students[|db.students|];
      && saved.id == env.objectId
      && saved.email == Some(NormalizeEmail(body.email.value))
      && saved.fullName == Some(Trim(body.fullName.value))
      && !Conflicts(db.students, saved)
      && out.response == Response(201, Some(if env.emailSent then EmailSentMessage else CanLoginMessage), None,
                                  Summary(None, Some(NextNumber(db, env)), saved.fullName, saved.email))
    ensures out.response.status == 201 ==>
      var saved := out.db.students[|db.students|];
      && saved.password == Some(Hash(if fixed then Plain(body.password.value) else Hash(Plain(body.password.value), env.salt), env.hookSalt))
      && saved.studentNumber == Some(if fixed then NextNumber(db, env) else HookStudentNumber(env.year, |db.students|))
  {
    var number := NextNumber(db, env);
    match SaveFor(db, body, env, fixed)
    case Failure(_) => Outcome(Error(500, RegisterErrorMessage), db)
    case Success(saved) =>
      SavedFromBody(db, body, env, fixed);
      SavedSecrets(db, body, env, fixed);
      var entry := LogEntry(number, Registration, env.now, RegisteredDetails + body.fullName.value);
      var message := if env.emailSent then EmailSentMessage else CanLoginMessage;
      var students := db.students + [saved];
      assert students[|db.students|] == saved;
      Outcome(Response(201, Some(message), None, Summary(None, Some(number), saved.fullName, saved.email)),
              Db(students, db.logs + [entry]))
  }

  /** The registration handler, as written (`fixed == false`) or with the
      student number and the plain password handed to the model: the checks
      in order, then `Admit`. */
  function RegisterWith(db: Db, body: RequestBody, env: RegisterEnv, fixed: bool): (out: Outcome)
    ensures RegisterCheck(db, body).Some? ==> out == Outcome(RegisterCheck(db, body).value, db)
    ensures RegisterCheck(db, body).None? ==> out == Admit(db, body, env, fixed)
  {
    match RegisterCheck(db, body)
    case Some(rejection) => Outcome(rejection, db)
    case None => Admit(db, body, env, fixed)
  }

  /** `POST /register` as written. Nothing is written unless it answers
      201; then the checks all passed, exactly one student (the one with the
      request's email) and one `REGISTRATION` entry under the generated
      number are added, and the stored document carries the hook's number
      and the password hashed twice: by the handler with `salt`, and again
      by the hook with `hookSalt`. */
  function Register(db: Db, body: RequestBody, env: RegisterEnv): (out: Outcome)
    ensures out.response.status in {201, 400, 500}
    ensures out.response.status != 201 ==> out.db == db && out.response.token.None?
    ensures RegisterCheck(db, body).Some? ==> out.response == RegisterCheck(db, body).value
    ensures RegisterCheck(db, body).None? && !env.bcryptInScope ==> out.response == Error(500, RegisterErrorMessage)
    ensures RegisterCheck(db, body).None? && !env.modelResolves ==> out.response == Error(500, RegisterErrorMessage)
    ensures RegisterCheck(db, body).None? && !Present(TrimField(body.course)) ==> out.response == Error(500, RegisterErrorMessage)
    ensures out.response.status == 201 ==>
      && Truthy(body.password) && RegisterCheck(db, body).None?
      && |out.db.students| == |db.students| + 1
      && out.db.students == db.students + [out.db.students[|db.students|]]
      && out.db.students[|db.students|].email == Some(NormalizeEmail(body.email.value))
      && out.response.data == Summary(None, Some(NextNumber(db, env)), out.db.students[|db.students|].fullName, out.db.students[|db.students|].email)
      && out.db.logs == db.logs + [LogEntry(NextNumber(db, env), Registration, env.now, RegisteredDetails + body.fullName.value)]
      && out.db.students[|db.students|].studentNumber == Some(HookStudentNumber(env.year, |db.students|))
      && out.db.students[|db.students|].password == Some(Hash(Hash(Plain(body.password.value), env.salt), env.hookSalt))
  {
    RegisterWith(db, body, env, false)
  }

  /** The handler as evidently intended: it stores the number it reports
      and lets the hook hash the plain password once. */
  function RegisterFixed(db: Db, body: RequestBody, env: RegisterEnv): (out: Outcome)
    ensures out.response.status in {201, 400, 500}
    ensures out.response.status != 201 ==> out.db == db && out.response.token.None?
    ensures out.response.status == 201 ==>
      && Truthy(body.password) && RegisterCheck(db, body).None?
      && |out.db.students| == |db.students| + 1
      && out.db.students == db.students + [out.db.students[|db.students|]]
      && out.db.students[|db.students|].email == Some(NormalizeEmail(body.email.value))
      && !Conflicts(db.students, out.db.students[|db.students|])
      && out.db.students[|db.students|].studentNumber == Some(NextNumber(db, env))
      && out.response.data == Summary(None, Some(NextNumber(db, env)), out.db.students[|db.students|].fullName, out.db.students[|db.students|].email)
      && out.db.students[|db.students|].password == Some(Hash(Plain(body.password.value), env.hookSalt))
  {
    RegisterWith(db, body, env, true)
  }

  // ---------------------------------------------------------------------
  // POST /login

  /** `POST /login` at `now` milliseconds. A missing field is refused with
      nothing logged. Otherwise every attempt is logged under the email as
      typed: an unknown email and a wrong password give the same 401, a
      match gives 200 with a token naming the student's number. The
      students are never changed. */
  function Login(db: Db, body: RequestBody, now: nat): (out: Outcome)
    ensures out.db.students == db.students
    ensures out.db.logs == db.logs || (Truthy(body.email) && exists e :: out.db.logs == db.logs + [e] && e.studentNumber == body.email.value)
    ensures out.response.status in {200, 400, 401, 500}
    ensures out.response.status == 400 <==> !(Truthy(body.email) && Truthy(body.password))
    ensures out.response.status == 400 ==> out == Outcome(Error(400, MissingCredentialsMessage), db)
    ensures Truthy(body.email) && Truthy(body.password) && EmailFree(db.students, body.email.value) ==>
      out.response == Error(401, BadCredentialsMessage)
      && out.db.logs == db.logs + [LogEntry(body.email.value, LoginFailed, now, UnknownEmailDetails)]
    ensures (Truthy(body.email) && Truthy(body.password) && FindByEmail(db.students, body.email.value).Some?
             && FindByEmail(db.students, body.email.value).value.password.Some?) ==>
      (out.response.status == 200 <==> Compare(body.password.value, FindByEmail(db.students, body.email.value).value.password.value))
    ensures (Truthy(body.email) && Truthy(body.password) && FindByEmail(db.students, body.email.value).Some?
             && FindByEmail(db.students, body.email.value).value.password.Some?
             && Compare(body.password.value, FindByEmail(db.students, body.email.value).value.password.value)) ==>
      var s := FindByEmail(db.students, body.email.value).value;
      out.response == Response(200, Some(LoginOkMessage), Some(Sign(ByNumber(s.studentNumber), now)),
                               Summary(None, s.studentNumber, s.fullName, s.email))
    ensures (Truthy(body.email) && Truthy(body.password) && FindByEmail(db.students, body.email.value).Some?
             && FindByEmail(db.students, body.email.value).value.password.Some?
             && !Compare(body.password.value, FindByEmail(db.students, body.email.value).value.password.value)) ==>
      out.response == Error(401, BadCredentialsMessage)
      && out.db.logs == db.logs + [LogEntry(body.email.value, LoginFailed, now, WrongPasswordDetails)]
    ensures out.response.status == 401 ==>
      out.response == Error(401, BadCredentialsMessage)
      && exists d :: out.db.logs == db.logs + [LogEntry(body.email.value, LoginFailed, now, d)]
    ensures out.response.status == 200 ==>
      exists s :: s in db.students && s.email == Some(NormalizeEmail(body.email.value))
        && s.password.Some? && Compare(body.password.value, s.password.value)
        && out.response == Response(200, Some(LoginOkMessage), Some(Sign(ByNumber(s.studentNumber), now)),
                                    Summary(None, s.studentNumber, s.fullName, s.email))
    ensures out.response.status == 200 ==>
      out.db.logs == db.logs + [LogEntry(body.email.value, LoginSuccess, now, LoggedInDetails)]
    ensures out.response.status == 500 ==> out == Outcome(Error(500, LoginErrorMessage), db)
  {
    if !Truthy(body.email) || !Truthy(body.password) then Outcome(Error(400, MissingCredentialsMessage), db)
    else
      var email, password := body.email.value, body.password.value;
      match FindByEmail(db.students, email)
      case None =>
        Outcome(Error(401, BadCredentialsMessage), db.(logs := db.logs + [LogEntry(email, LoginFailed, now, UnknownEmailDetails)]))
      case Some(s) =>
        if s.password.None? then Outcome(Error(500, LoginErrorMessage), db)
        else if !Compare(password, s.password.value) then
          Outcome(Error(401, BadCredentialsMessage), db.(logs := db.logs + [LogEntry(email, LoginFailed, now, WrongPasswordDetails)]))
        else
          Outcome(Response(200, Some(LoginOkMessage), Some(Sign(ByNumber(s.studentNumber), now)),
                           Summary(None, s.studentNumber, s.fullName, s.email)),
                  db.(logs := db.logs + [LogEntry(email, LoginSuccess, now, LoggedInDetails)]))
  }

  // ---------------------------------------------------------------------
  // GET /logs/:studentNumber

  /** `GET /logs/:studentNumber`: the student's latest entries. */
  function Logs(db: Db, studentNumber: string): (r: Response)
    ensures r.status == 200 && r.data.LogList? && |r.data.entries| <= LogsLimit
    ensures r.data.entries == LogsFor(db.logs, studentNumber) && NewestFirst(r.data.entries)
    ensures forall e :: e in r.data.entries ==> e.studentNumber == studentNumber && e in db.logs
    ensures |EntriesFor(db.logs, studentNumber)| <= LogsLimit ==> multiset(r.data.entries) == multiset(EntriesFor(db.logs, studentNumber))
  {
    var entries := LogsFor(db.logs, studentNumber);
    Response(200, None, None, LogList(entries))
  }

  // ---------------------------------------------------------------------
  // Properties across handlers

  /** With `bcrypt` unbound in the hook, as Student.js is written, or with
      the hook's model lookup throwing, no registration succeeds and nothing
      is written. */
  lemma RegisterNeverSucceedsAsWritten(db: Db, body: RequestBody, env: RegisterEnv)
    requires !env.bcryptInScope || !env.modelResolves
    ensures Register(db, body, env).response.status in {400, 500}
    ensures Register(db, body, env).db == db
  {
  }

  /** Finding: an account made through the route cannot log in with the
      password it was made with. The handler stores its own hash and the
      hook hashes that hash again, and no password matches a double hash. */
  lemma RouteRegisteredCannotLogIn(db: Db, body: RequestBody, env: RegisterEnv, now: nat)
    requires Register(db, body, env).response.status == 201
    ensures Login(Register(db, body, env).db, LoginBody(body.email.value, body.password.value), now).response
            == Error(401, BadCredentialsMessage)
  {
    var out := Register(db, body, env);
    var saved := out.db.students[|db.students|];
    NewStudentFound(db, body, out.db.students, saved);
    DoubleHashMatchesNothing(Plain(body.password.value), env.salt, env.hookSalt, body.password.value);
  }

  /** After a registration that appended `saved` under a free email, a
      lookup by that email finds `saved`. */
  lemma NewStudentFound(db: Db, body: RequestBody, students: seq<Student>, saved: Student)
    requires Truthy(body.email) && EmailFree(db.students, body.email.value)
    requires students == db.students + [saved] && saved.email == Some(NormalizeEmail(body.email.value))
    ensures FindByEmail(students, body.email.value) == Some(saved)
  {
    FindByEmailAppend(db.students, saved, body.email.value);
  }

  /** The corrected handler: the new account logs in with its password, and
      the token names the number the registration reported. */
  lemma RegisterFixedThenLoginSucceeds(db: Db, body: RequestBody, env: RegisterEnv, now: nat)
    requires RegisterFixed(db, body, env).response.status == 201
    ensures var login := Login(RegisterFixed(db, body, env).db, LoginBody(body.email.value, body.password.value), now);
      && login.response.status == 200
      && login.response.token == Some(Sign(ByNumber(Some(NextNumber(db, env))), now))
      && login.response.data.Summary? && RegisterFixed(db, body, env).response.data.Summary?
      && login.response.data.studentNumber == RegisterFixed(db, body, env).response.data.studentNumber
  {
    var out := RegisterFixed(db, body, env);
    var saved := FixedStudentFound(db, body, env);
    LoginFindsHashed(out.db, LoginBody(body.email.value, body.password.value), now, saved, env.hookSalt);
  }

  /** The student the corrected handler stores: the lookup by the request's
      email finds it, with the plain password hashed once and the reported
      number. */
  lemma FixedStudentFound(db: Db, body: RequestBody, env: RegisterEnv) returns (saved: Student)
    requires RegisterFixed(db, body, env).response.status == 201
    ensures var out := RegisterFixed(db, body, env);
      && Truthy(body.email) && Truthy(body.password)
      && FindByEmail(out.db.students, body.email.value) == Some(saved)
      && saved.password == Some(Hash(Plain(body.password.value), env.hookSalt))
      && saved.studentNumber == Some(NextNumber(db, env))
      && out.response.data.Summary? && out.response.data.studentNumber == Some(NextNumber(db, env))
  {
    var out := RegisterFixed(db, body, env);
    saved := out.db.students[|db.students|];
    NewStudentFound(db, body, out.db.students, saved);
  }

  /** A login whose email finds a student holding a hash of the typed
      password answers 200 with a token naming that student's number. */
  lemma LoginFindsHashed(db: Db, body: RequestBody, now: nat, s: Student, salt: nat)
    requires Truthy(body.email) && Truthy(body.password)
    requires FindByEmail(db.students, body.email.value) == Some(s)
    requires s.password == Some(Hash(Plain(body.password.value), salt))
    ensures Login(db, body, now).response
            == Response(200, Some(LoginOkMessage), Some(Sign(ByNumber(s.studentNumber), now)),
                        Summary(None, s.studentNumber, s.fullName, s.email))
  {
    assert Compare(body.password.value, s.password.value);
  }

  /** Zero padding keeps a digit string a digit string. */
  lemma PaddedDigits(text: string, width: nat)
    requires AllDigits(text)
    ensures AllDigits(PadStart(text, width, '0'))
  {
    var padded := PadStart(text, width, '0');
    forall i | 0 <= i < |padded|
      ensures IsDigit(padded[i])
    {
      if i >= |padded| - |text| {
        assert padded[i] == padded[|padded| - |text|..][i - (|padded| - |text|)];
      }
    }
  }

  /** The sequence read back from a hook number is a non-negative number. */
  lemma HookSequenceParses(m: string)
    requires HookShaped(m)
    ensures ParseInt(SliceLast(m, SequenceWidth)).Finite? && ParseInt(SliceLast(m, SequenceWidth)).value >= 0
  {
    var last := SliceLast(m, SequenceWidth);
    assert last == m[|m| - SequenceDigits..];
    ParseIntOfDigits(last);
  }

  /** A year prefix followed by a non-negative sequence is all digits. */
  lemma FormatDigits(prefix: string, next: JsNumber)
    requires AllDigits(prefix) && next.Finite? && next.value >= 0
    ensures AllDigits(FormatStudentNumber(prefix, next))
  {
    PaddedDigits(NumberToString(next), SequenceWidth);
  }

  /** Numbers generated next to hook numbers are all digits: the last five
      characters of a hook number parse as a non-negative number. */
  lemma GeneratedFromHookNumbers(year: nat, existing: seq<string>)
    requires forall x :: x in existing ==> HookShaped(x)
    ensures AllDigits(GenerateStudentNumber(year, existing))
  {
    var prefix := YearPrefix(year);
    var last := LastWithPrefix(prefix, existing);
    if last.None? {
      assert GenerateStudentNumber(year, existing) == prefix + "00001";
    } else {
      var m := last.value;
      assert IsLastWithPrefix(m, prefix, existing);
      HookSequenceParses(m);
      var next := Plus(ParseInt(SliceLast(m, SequenceWidth)), 1);
      FormatDigits(prefix, next);
    }
  }

  /** An element of `xs + [y]` other than `y` is in `xs`. */
  lemma InAppended<T>(xs: seq<T>, y: T, x: T)
    requires x in xs + [y] && x != y
    ensures x in xs
  {
  }

  /** Registration keeps every stored number in the hook's shape. */
  lemma RegisterKeepsHookMade(db: Db, body: RequestBody, env: RegisterEnv)
    requires HookMade(db.students)
    ensures HookMade(Register(db, body, env).db.students)
  {
    var out := Register(db, body, env);
    if out.response.status == 201 {
      var saved := out.db.students[|db.students|];
      HookNumberIsHookShaped(env.year, |db.students|);
      AppendKeepsHookMade(db.students, saved);
    }
  }

  /** Appending a student whose number, if any, has the hook's shape keeps
      the store hook-made. */
  lemma AppendKeepsHookMade(store: seq<Student>, saved: Student)
    requires HookMade(store)
    requires saved.studentNumber.Some? ==> HookShaped(saved.studentNumber.value)
    ensures HookMade(store + [saved])
  {
    forall s | s in store + [saved] && s.studentNumber.Some?
      ensures HookShaped(s.studentNumber.value)
    {
      if s != saved {
        InAppended(store, saved, s);
      }
    }
  }

  /** Finding: the number the response reports belongs to nobody. In a
      store whose numbers came from the hook, the reported number is all
      digits, while every stored one, the new student's included, has the
      hook's hyphen. */
  lemma ResponseNumberIsNotStored(db: Db, body: RequestBody, env: RegisterEnv)
    requires HookMade(db.students)
    requires Register(db, body, env).response.status == 201
    ensures var out := Register(db, body, env);
      && out.response.data.studentNumber == Some(NextNumber(db, env))
      && out.db.students[|db.students|].studentNumber != out.response.data.studentNumber
      && FindByNumber(out.db.students, NextNumber(db, env)).None?
  {
    var out := Register(db, body, env);
    var number := NextNumber(db, env);
    StoredNumbersHookShaped(db.students);
    GeneratedFromHookNumbers(env.year, StoredNumbers(db.students));
    RegisterKeepsHookMade(db, body, env);
    DigitsNotInHookMade(out.db.students, number);
  }

  /** In a hook-made store every number a query can see has the hook's
      shape. */
  lemma StoredNumbersHookShaped(store: seq<Student>)
    requires HookMade(store)
    ensures forall x :: x in StoredNumbers(store) ==> HookShaped(x)
  {
    forall x | x in StoredNumbers(store)
      ensures HookShaped(x)
    {
      var s :| s in store && s.studentNumber == Some(x);
    }
  }

  /** An all-digit number belongs to nobody in a hook-made store. */
  lemma DigitsNotInHookMade(store: seq<Student>, number: string)
    requires HookMade(store) && AllDigits(number)
    ensures forall s :: s in store ==> s.studentNumber != Some(number)
    ensures FindByNumber(store, number).None?
  {
    forall s | s in store
      ensures s.studentNumber != Some(number)
    {
      if s.studentNumber.Some? {
        assert HookShaped(s.studentNumber.value);
      }
    }
  }

  /** The corrected handler reports the number the new student is stored
      under. */
  lemma RegisterFixedReportsStoredNumber(db: Db, body: RequestBody, env: RegisterEnv)
    requires RegisterFixed(db, body, env).response.status == 201
    ensures var out := RegisterFixed(db, body, env);
      FindByNumber(out.db.students, NextNumber(db, env)) == Some(out.db.students[|db.students|])
  {
    var out := RegisterFixed(db, body, env);
    var saved := out.db.students[|db.students|];
    FreshNumberFound(db.students, saved, NextNumber(db, env));
  }

  /** A student appended without conflicts is what a lookup by its number
      finds. */
  lemma FreshNumberFound(store: seq<Student>, saved: Student, n: string)
    requires !Conflicts(store, saved) && saved.studentNumber == Some(n)
    ensures FindByNumber(store + [saved], n) == Some(saved)
  {
    FindByNumberAppend(store, saved, n);
  }

  /** Logins are logged under the email as typed, so the log of a student
      number never shows them unless the number equals that text. */
  lemma LoginNotInNumberLogs(db: Db, body: RequestBody, now: nat, studentNumber: string)
    requires body.email.Some? && body.email.value != studentNumber
    ensures LogsFor(Login(db, body, now).db.logs, studentNumber) == LogsFor(db.logs, studentNumber)
  {
    var out := Login(db, body, now);
    if out.db.logs != db.logs {
      var e :| out.db.logs == db.logs + [e] && e.studentNumber == body.email.value;
      EntriesForAppend(db.logs, e, studentNumber);
      LogsForOfSameEntries(out.db.logs, db.logs, studentNumber);
    }
  }

  /** The other side: anyone who types a student number as the email of
      an unknown account writes a failed-login entry under that number,
      and the number's log shows it while the log has room. */
  lemma NumberTypedAsEmailIsLogged(db: Db, studentNumber: string, password: string, now: nat)
    requires studentNumber != "" && password != ""
    requires EmailFree(db.students, studentNumber)
    ensures var out := Login(db, LoginBody(studentNumber, password), now);
            && out.response == Error(401, BadCredentialsMessage)
            && EntriesFor(out.db.logs, studentNumber)
               == EntriesFor(db.logs, studentNumber) + [LogEntry(studentNumber, LoginFailed, now, UnknownEmailDetails)]
            && LogsFor(out.db.logs, studentNumber) != []
    ensures |EntriesFor(db.logs, studentNumber)| < LogsLimit ==>
      LogEntry(studentNumber, LoginFailed, now, UnknownEmailDetails)
        in LogsFor(Login(db, LoginBody(studentNumber, password), now).db.logs, studentNumber)
  {
    var out := Login(db, LoginBody(studentNumber, password), now);
    var e := LogEntry(studentNumber, LoginFailed, now, UnknownEmailDetails);
    assert out.response == Error(401, BadCredentialsMessage) && out.db.logs == db.logs + [e];
    AppendedEntryShown(db.logs, e);
  }

  /** A token issued by `/login` opens the middleware, given a `verify` that
      decodes it to the number it was signed with. */
  lemma LoginTokenOpensMiddleware(db: Db, body: RequestBody, now: nat, verify: string -> Option<string>, t: string)
    requires Login(db, body, now).response.status == 200
    requires Login(db, body, now).response.token.value.subject.studentNumber.Some?
    requires verify(t) == Login(db, body, now).response.token.value.subject.studentNumber
    ensures Authenticate(Some(BearerPrefix + t), verify, db.students).Success?
    ensures Authenticate(Some(BearerPrefix + t), verify, db.students).value.studentNumber == verify(t)
  {
    BearerTokenIsTheRest(t, verify, db.students);
  }
}
