/** What the Express handlers exchange with their clients and their
    collections: request bodies, JSON responses, signed token claims, and the
    two collections the handlers touch. */
module Http {
  import opened Wrappers
  import opened StudentSchema
  import opened ActivityLog

  /** `req.body` of the registration and login requests; `None` is an
      omitted field. */
  datatype RequestBody = RequestBody(
    fullName: Option<string>,
    birthDate: Option<string>,
    gender: Option<string>,
    religion: Option<string>,
    email: Option<string>,
    mobile: Option<string>,
    address: Option<string>,
    course: Option<string>,
    yearLevel: Option<string>,
    password: Option<string>,
    confirmPassword: Option<string>,
    agreeTerms: Option<bool>)

  /** A login body: only `email` and `password` are set. */
  function LoginBody(email: string, password: string): (b: RequestBody)
    ensures b.email == Some(email) && b.password == Some(password)
  {
    RequestBody(None, None, None, None, Some(email), None, None, None, None, Some(password), None, None)
  }

  /** Lifetime of every issued token, `expiresIn: '7d'`, in seconds. */
  const TokenLifetime: nat := 7 * 24 * 60 * 60

  /** What a token names: the routes sign `{ studentNumber }`, the controller
      signs `{ id }`. */
  datatype Subject = ByNumber(studentNumber: Option<string>) | ById(id: string)

  /** The payload `jwt.sign` produces: the subject, `iat` in whole seconds,
      and `exp`. */
  datatype Claims = Claims(subject: Subject, iat: nat, exp: nat)

  /** `jwt.sign(subject, secret, { expiresIn: '7d' })` at `now` milliseconds. */
  function Sign(subject: Subject, now: nat): (c: Claims)
    ensures c.subject == subject
    ensures c.iat * 1000 <= now < c.iat * 1000 + 1000
    ensures c.exp - c.iat == TokenLifetime
  {
    Claims(subject, now / 1000, now / 1000 + TokenLifetime)
  }

  /** The `data` (routes) or `student` (controller) part of a response. */
  datatype Payload =
    | NoData
    | Summary(id: Option<string>, studentNumber: Option<string>, name: Option<string>, email: Option<string>)
    | LogList(entries: seq<LogEntry>)

  /** A JSON response: status, message, token when one is issued, payload.
      The routes' `success` flag is true exactly for the 2xx statuses. */
  datatype Response = Response(status: nat, message: Option<string>, token: Option<Claims>, data: Payload)

  /** An error response: a status and a message, nothing else. */
  function Error(status: nat, message: string): (r: Response)
    ensures r.status == status && r.message == Some(message)
    ensures r.token.None? && r.data.NoData?
  {
    Response(status, Some(message), None, NoData)
  }

  /** The `students` and `logs` collections. */
  datatype Db = Db(students: seq<Student>, logs: seq<LogEntry>)

  /** A handler's response and the collections after it. */
  datatype Outcome = Outcome(response: Response, db: Db)
}
