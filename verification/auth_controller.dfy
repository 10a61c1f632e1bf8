/** backend/controllers/authController.js: a second registration and login
    pair that no route mounts (server.js mounts routes/auth.js). It differs
    from the routes: it demands `course` and `confirmPassword`, checks the
    terms, leaves the password length to the schema, hands the plain
    password to the model, and signs tokens with the document `_id`. */
module AuthController {
  import opened Wrappers
  import opened Text
  import opened Credentials
  import opened StudentSchema
  import opened Http

  const MissingFieldsMessage: string := "Please fill in all required fields"
  const MismatchMessage: string := "Passwords do not match"
  const TermsMessage: string := "You must agree to the terms and conditions"
  const EmailTakenMessage: string := "Email already registered"
  const RegisterErrorMessage: string := "Server error during registration"
  const RegisteredMessage: string := "Registration successful"
  const MissingCredentialsMessage: string := "Please provide email and password"
  const BadCredentialsMessage: string := "Invalid email or password"
  const LoginErrorMessage: string := "Server error during login"
  const LoginOkMessage: string := "Login successful"

  /** The year, time and hook salt of a save, the `_id` of a new document,
      and whether `bcrypt` and `mongoose.model('Student')` resolve inside
      Student.js. */
  datatype ControllerEnv = ControllerEnv(
    year: nat, now: nat, hookSalt: nat, objectId: string, bcryptInScope: bool, modelResolves: bool)

  predicate RequiredPresent(body: RequestBody) {
    && Truthy(body.fullName) && Truthy(body.email) && Truthy(body.course)
    && Truthy(body.password) && Truthy(body.confirmPassword)
  }

  /** `!agreeTerms` fails for an omitted field and for `false`. */
  predicate AgreedToTerms(body: RequestBody) {
    body.agreeTerms == Some(true)
  }

  /** The checks before the save, in the handler's order; `None` when all
      pass. The first failing check decides the message. */
  function RegisterCheck(store: seq<Student>, body: RequestBody): (r: Option<Response>)
    ensures r.None? <==>
      RequiredPresent(body) && body.password == body.confirmPassword && AgreedToTerms(body)
      && forall s :: s in store ==> s.email != Some(NormalizeEmail(body.email.value))
    ensures !RequiredPresent(body) ==> r == Some(Error(400, MissingFieldsMessage))
    ensures RequiredPresent(body) && body.password != body.confirmPassword ==> r == Some(Error(400, MismatchMessage))
    ensures RequiredPresent(body) && body.password == body.confirmPassword && !AgreedToTerms(body) ==>
      r == Some(Error(400, TermsMessage))
    ensures (RequiredPresent(body) && body.password == body.confirmPassword && AgreedToTerms(body)
             && exists s :: s in store && s.email == Some(NormalizeEmail(body.email.value))) ==>
      r == Some(Error(400, EmailTakenMessage))
  {
    if !RequiredPresent(body) then Some(Error(400, MissingFieldsMessage))
    else if body.password != body.confirmPassword then Some(Error(400, MismatchMessage))
    else if !AgreedToTerms(body) then Some(Error(400, TermsMessage))
    else if FindByEmail(store, body.email.value).Some? then Some(Error(400, EmailTakenMessage))
    else None
  }

  /** The object handed to `Student.create`: the plain password, the terms
      flag, no student number. */
  function CreateInput(body: RequestBody): (input: StudentInput)
    requires Truthy(body.password)
    ensures input.studentNumber.None? && input.password == Some(Plain(body.password.value))
    ensures input.email == body.email && input.fullName == body.fullName && input.course == body.course
    ensures input.agreeTerms == body.agreeTerms
  {
    StudentInput(
      None,
      body.fullName,
      Or(body.birthDate, None),
      Or(body.gender, Some("")),
      Or(body.religion, Some("")),
      body.email,
      Or(body.mobile, Some("")),
      Or(body.address, Some("")),
      body.course,
      Or(body.yearLevel, Some("")),
      Some(Plain(body.password.value)),
      body.agreeTerms)
  }

  /** `register`. Nothing is written unless it answers 201; then the one new
      document has the request's email, the hook's number and the password
      hashed once, and the token names its `_id`. */
  function Register(store: seq<Student>, body: RequestBody, env: ControllerEnv): (out: (Response, seq<Student>))
    ensures out.0.status in {201, 400, 500}
    ensures out.0.status != 201 ==> out.1 == store && out.0.token.None?
    ensures RegisterCheck(store, body).Some? ==> out.0 == RegisterCheck(store, body).value
    ensures RegisterCheck(store, body).None? && !env.bcryptInScope ==> out.0 == Error(500, RegisterErrorMessage)
    ensures RegisterCheck(store, body).None? && !env.modelResolves ==> out.0 == Error(500, RegisterErrorMessage)
    ensures RegisterCheck(store, body).None? && Utf16Length(body.password.value) < PasswordMinLength ==>
      out.0 == Error(500, RegisterErrorMessage)
    ensures out.0.status == 201 ==>
      && RegisterCheck(store, body).None? && env.bcryptInScope && env.modelResolves
      && |out.1| == |store| + 1
      && out.1 == store + [out.1[|store|]]
      && out.1[|store|].id == env.objectId
      && out.1[|store|].email == Some(NormalizeEmail(body.email.value))
      && out.1[|store|].studentNumber == Some(HookStudentNumber(env.year, |store|))
      && out.1[|store|].password == Some(Hash(Plain(body.password.value), env.hookSalt))
      && out.0 == Response(201, Some(RegisteredMessage), Some(Sign(ById(env.objectId), env.now)),
                           Summary(Some(env.objectId), out.1[|store|].studentNumber, out.1[|store|].fullName, out.1[|store|].email))
  {
    match RegisterCheck(store, body)
    case Some(rejection) => (rejection, store)
    case None =>
      var input := CreateInput(body);
      assert StoredLength(input.password.value) == Utf16Length(body.password.value);
      match SaveNew(input, env.objectId, store, SaveEnv(env.year, env.hookSalt, env.bcryptInScope, env.modelResolves))
      case Failure(_) => (Error(500, RegisterErrorMessage), store)
      case Success(saved) =>
        var students := store + [saved];
        assert students[|store|] == saved;
        (Response(201, Some(RegisteredMessage), Some(Sign(ById(saved.id), env.now)),
                  Summary(Some(saved.id), saved.studentNumber, saved.fullName, saved.email)),
         students)
  }

  /** `login`. A missing field is a 400; an unknown email and a wrong
      password give the identical 401; a throwing `comparePassword` gives
      500; a match gives 200 with a token naming the `_id`. Nothing is
      written and nothing is logged. */
  function Login(store: seq<Student>, body: RequestBody, env: ControllerEnv): (r: Response)
    ensures r.status in {200, 400, 401, 500}
    ensures r.status == 400 <==> !(Truthy(body.email) && Truthy(body.password))
    ensures r.status == 400 ==> r == Error(400, MissingCredentialsMessage)
    ensures r.status == 401 ==> r == Error(401, BadCredentialsMessage)
    ensures r.status == 500 ==> r == Error(500, LoginErrorMessage)
    ensures Truthy(body.email) && Truthy(body.password)
            && (forall s :: s in store ==> s.email != Some(NormalizeEmail(body.email.value))) ==>
      r.status == 401
    ensures (Truthy(body.email) && Truthy(body.password) && FindByEmail(store, body.email.value).Some?
             && FindByEmail(store, body.email.value).value.password.Some? && env.bcryptInScope) ==>
      (r.status == 200 <==> Compare(body.password.value, FindByEmail(store, body.email.value).value.password.value))
    ensures (Truthy(body.email) && Truthy(body.password) && FindByEmail(store, body.email.value).Some?
             && FindByEmail(store, body.email.value).value.password.Some? && env.bcryptInScope
             && !Compare(body.password.value, FindByEmail(store, body.email.value).value.password.value)) ==>
      r == Error(401, BadCredentialsMessage)
    ensures (Truthy(body.email) && Truthy(body.password) && FindByEmail(store, body.email.value).Some?
             && (!env.bcryptInScope || FindByEmail(store, body.email.value).value.password.None?)) ==>
      r == Error(500, LoginErrorMessage)
    ensures r.status == 200 ==>
      exists s :: s in store && s.email == Some(NormalizeEmail(body.email.value))
        && s.password.Some? && Compare(body.password.value, s.password.value)
        && r == Response(200, Some(LoginOkMessage), Some(Sign(ById(s.id), env.now)),
                         Summary(Some(s.id), s.studentNumber, s.fullName, s.email))
  {
    if !Truthy(body.email) || !Truthy(body.password) then Error(400, MissingCredentialsMessage)
    else
      match FindByEmail(store, body.email.value)
      case None => Error(401, BadCredentialsMessage)
      case Some(s) =>
        match ComparePassword(s, body.password.value, env.bcryptInScope)
        case None => Error(500, LoginErrorMessage)
        case Some(false) => Error(401, BadCredentialsMessage)
        case Some(true) =>
          Response(200, Some(LoginOkMessage), Some(Sign(ById(s.id), env.now)),
                   Summary(Some(s.id), s.studentNumber, s.fullName, s.email))
  }

  /** With `bcrypt` in scope, an account made by `register` logs in with its
      password, and both tokens name the same document. */
  lemma RegisterThenLogin(store: seq<Student>, body: RequestBody, env: ControllerEnv)
    requires Register(store, body, env).0.status == 201
    ensures var (response, students) := Register(store, body, env);
      var login := Login(students, LoginBody(body.email.value, body.password.value), env);
      && login.status == 200
      && login.token == Some(Sign(ById(env.objectId), env.now))
      && login.data == response.data
  {
    var students := Register(store, body, env).1;
    var saved := students[|store|];
    FindByEmailAppend(store, saved, body.email.value);
  }

  /** With `bcrypt` unbound in the hook, as Student.js is written, no
      registration succeeds and a login that reaches the password check is
      a server error. */
  lemma UnboundBcryptBreaksBoth(store: seq<Student>, body: RequestBody, env: ControllerEnv)
    requires !env.bcryptInScope
    ensures Register(store, body, env).0.status != 201
    ensures Truthy(body.email) && Truthy(body.password) && FindByEmail(store, body.email.value).Some? ==>
      Login(store, body, env) == Error(500, LoginErrorMessage)
  {
  }
}
