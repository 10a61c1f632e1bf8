/** The Student model of backend/models/Student.js as Mongoose applies it on
    `save()`: setters and defaults when the document is built, the schema
    validators, the pre-save hook (student number from a document count, then
    password hashing), and the unique indexes on `studentNumber` and `email`.

    The collection is a sequence of documents in insertion order; the year and
    the salt are arguments. Two flags say what resolves inside the hook:
    `bcryptInScope`, whether the name `bcrypt` does (Student.js uses it
    without importing it, see `UnboundBcryptFailsEverySave`), and
    `modelResolves`, whether `mongoose.model('Student')` does on the default
    Mongoose instance, where Student.js never registers the model (it does so
    only on its own connection). When it resolves, the count is taken to be
    the size of the collection. */
module StudentSchema {
  import opened Wrappers
  import opened Text
  import opened Decimal
  import opened Credentials

  /** Allowed values of `gender` (its `enum`). */
  const GenderValues: seq<string> := ["Male", "Female", "Other", "Prefer not to say", ""]

  /** Minimum `length` of `password` (its `minlength`). */
  const PasswordMinLength: nat := 6

  /** The object passed to `new Student({...})`; `None` is an omitted field. */
  datatype StudentInput = StudentInput(
    studentNumber: Option<string>,
    fullName: Option<string>,
    birthDate: Option<string>,
    gender: Option<string>,
    religion: Option<string>,
    email: Option<string>,
    mobile: Option<string>,
    address: Option<string>,
    course: Option<string>,
    yearLevel: Option<string>,
    password: Option<Secret>,
    agreeTerms: Option<bool>)

  /** A Student document once its setters and defaults have run. `id` is the
      `_id` Mongoose assigns on construction. */
  datatype Student = Student(
    id: string,
    studentNumber: Option<string>,
    fullName: Option<string>,
    birthDate: Option<string>,
    gender: string,
    religion: string,
    email: Option<string>,
    mobile: string,
    address: string,
    course: Option<string>,
    yearLevel: string,
    password: Option<Secret>,
    agreeTerms: bool)

  /** The `email` path's setters: `lowercase`, then `trim`. The result is
      the lower-cased input with only white space dropped at either end. */
  function NormalizeEmail(s: string): (r: string)
    ensures exists i, j :: 0 <= i <= j <= |s| && r == ToLower(s)[i..j]
                           && (forall k :: 0 <= k < i ==> IsWhitespace(s[k]))
                           && (forall k :: j <= k < |s| ==> IsWhitespace(s[k]))
    ensures forall i :: 0 <= i < |r| ==> !IsAsciiUpper(r[i])
    ensures r == [] || (!IsWhitespace(r[0]) && !IsWhitespace(r[|r| - 1]))
  {
    NormalizedSlice(s);
    TrimKeepsLower(ToLower(s));
    Trim(ToLower(s))
  }

  /** Where `NormalizeEmail` cuts, proved apart from it. */
  lemma NormalizedSlice(s: string)
    ensures exists i, j :: 0 <= i <= j <= |s| && Trim(ToLower(s)) == ToLower(s)[i..j]
                           && (forall k :: 0 <= k < i ==> IsWhitespace(s[k]))
                           && (forall k :: j <= k < |s| ==> IsWhitespace(s[k]))
  {
    var i := |ToLower(s)| - |TrimStart(ToLower(s))|;
    var j := i + |TrimEnd(TrimStart(ToLower(s)))|;
    LowerTrimBounds(s, i, j);
  }

  /** Trimming text with no upper-case letter leaves none. */
  lemma TrimKeepsLower(t: string)
    requires forall k :: 0 <= k < |t| ==> !IsAsciiUpper(t[k])
    ensures forall k :: 0 <= k < |Trim(t)| ==> !IsAsciiUpper(Trim(t)[k])
  {
    var i := |t| - |TrimStart(t)|;
    var j := i + |TrimEnd(TrimStart(t))|;
    var r := Trim(t);
    assert 0 <= i <= j <= |t| && r == t[i..j] by {
      TrimBounds(t, i, j);
    }
    SliceKeepsLower(t, i, j);
  }

  /** A slice of text with no upper-case letter has none. */
  lemma SliceKeepsLower(t: string, i: int, j: int)
    requires 0 <= i <= j <= |t|
    requires forall k :: 0 <= k < |t| ==> !IsAsciiUpper(t[k])
    ensures forall k :: 0 <= k < j - i ==> !IsAsciiUpper(t[i..j][k])
  {
    forall k | 0 <= k < j - i
      ensures !IsAsciiUpper(t[i..j][k])
    {
      assert t[i..j][k] == t[i + k];
    }
  }

  /** Where the email setters cut: the trimmed lower-cased text is a slice
      of the lower-cased input with only white space outside it. */
  lemma LowerTrimBounds(s: string, i: int, j: int)
    requires i == |ToLower(s)| - |TrimStart(ToLower(s))| && j == i + |TrimEnd(TrimStart(ToLower(s)))|
    ensures 0 <= i <= j <= |s| && Trim(ToLower(s)) == ToLower(s)[i..j]
    ensures forall k :: 0 <= k < i ==> IsWhitespace(s[k])
    ensures forall k :: j <= k < |s| ==> IsWhitespace(s[k])
  {
    var lower := ToLower(s);
    TrimBounds(lower, i, j);
    forall k | 0 <= k < i
      ensures IsWhitespace(s[k])
    {
      assert IsWhitespace(lower[k]);
    }
    forall k | j <= k < |s|
      ensures IsWhitespace(s[k])
    {
      assert IsWhitespace(lower[k]);
    }
  }

  /** Normalising a stored email changes nothing. */
  lemma NormalizeEmailIdempotent(s: string)
    ensures NormalizeEmail(NormalizeEmail(s)) == NormalizeEmail(s)
  {
    var t := NormalizeEmail(s);
    TrimCommutesWithLower(t);
    assert ToLower(t) == t;
    TrimIdempotent(ToLower(s));
  }

  /** The `trim` setter, on a value that may be absent. */
  function TrimField(v: Option<string>): Option<string> {
    match v
    case None => None
    case Some(s) => Some(Trim(s))
  }

  /** Building the document: trimmed paths are trimmed, `email` is
      normalised, omitted paths with a default take it, and the paths
      without setters keep the given value. */
  function Cast(input: StudentInput, id: string): (d: Student)
    ensures d.id == id && d.studentNumber == input.studentNumber
    ensures d.email.Some? <==> input.email.Some?
    ensures input.email.Some? ==> d.email.value == NormalizeEmail(input.email.value)
    ensures d.fullName == TrimField(input.fullName) && d.course == TrimField(input.course)
    ensures input.gender.None? ==> d.gender == ""
    ensures input.gender.Some? ==> d.gender == input.gender.value
    ensures input.religion.None? ==> d.religion == ""
    ensures input.religion.Some? ==> d.religion == Trim(input.religion.value)
    ensures input.mobile.None? ==> d.mobile == ""
    ensures input.mobile.Some? ==> d.mobile == Trim(input.mobile.value)
    ensures input.address.None? ==> d.address == ""
    ensures input.address.Some? ==> d.address == Trim(input.address.value)
    ensures input.yearLevel.None? ==> d.yearLevel == ""
    ensures input.yearLevel.Some? ==> d.yearLevel == input.yearLevel.value
    ensures d.birthDate == input.birthDate
    ensures d.agreeTerms == input.agreeTerms.GetOr(false)
    ensures d.password == input.password
  {
    Student(
      id,
      input.studentNumber,
      TrimField(input.fullName),
      input.birthDate,
      input.gender.GetOr(""),
      TrimField(input.religion).GetOr(""),
      match input.email case None => None case Some(e) => Some(NormalizeEmail(e)),
      TrimField(input.mobile).GetOr(""),
      TrimField(input.address).GetOr(""),
      TrimField(input.course),
      input.yearLevel.GetOr(""),
      input.password,
      input.agreeTerms.GetOr(false))
  }

  /** The fields of a built document, handed back to `new Student`. */
  function AsInput(d: Student): StudentInput {
    StudentInput(d.studentNumber, d.fullName, d.birthDate, Some(d.gender), Some(d.religion), d.email,
                 Some(d.mobile), Some(d.address), d.course, Some(d.yearLevel), d.password, Some(d.agreeTerms))
  }

  /** The setters are stable: building a document again from a built one
      changes nothing, so a stored document is already in normal form. */
  lemma CastStable(input: StudentInput, id: string)
    ensures Cast(AsInput(Cast(input, id)), id) == Cast(input, id)
  {
    var d := Cast(input, id);
    var e := Cast(AsInput(d), id);
    RequiredPathsStable(input, id);
    OptionalPathsStable(input, id);
    assert e.gender == d.gender && e.yearLevel == d.yearLevel && e.agreeTerms == d.agreeTerms;
  }

  /** Rebuilding keeps `email`, `fullName` and `course`. */
  lemma RequiredPathsStable(input: StudentInput, id: string)
    ensures var d := Cast(input, id);
      var e := Cast(AsInput(d), id);
      e.email == d.email && e.fullName == d.fullName && e.course == d.course
  {
    if input.email.Some? {
      NormalizeEmailIdempotent(input.email.value);
    }
    TrimFieldStable(input.fullName);
    TrimFieldStable(input.course);
  }

  /** Rebuilding keeps the trimmed paths with a default. */
  lemma OptionalPathsStable(input: StudentInput, id: string)
    ensures var d := Cast(input, id);
      var e := Cast(AsInput(d), id);
      e.religion == d.religion && e.mobile == d.mobile && e.address == d.address
  {
    var d := Cast(input, id);
    var e := Cast(AsInput(d), id);
    DefaultedTrimStable(input.religion);
    DefaultedTrimStable(input.mobile);
    DefaultedTrimStable(input.address);
    assert e.religion == TrimField(Some(d.religion)).GetOr("");
    assert e.mobile == TrimField(Some(d.mobile)).GetOr("");
    assert e.address == TrimField(Some(d.address)).GetOr("");
  }

  /** A trimmed path with a default is stable under a second build. */
  lemma DefaultedTrimStable(v: Option<string>)
    ensures TrimField(Some(TrimField(v).GetOr(""))).GetOr("") == TrimField(v).GetOr("")
  {
    TrimFieldStable(v);
    TrimIdempotent("");
  }

  /** The `trim` setter is stable on a value that may be absent. */
  lemma TrimFieldStable(v: Option<string>)
    ensures TrimField(TrimField(v)) == TrimField(v)
  {
    if v.Some? {
      TrimIdempotent(v.value);
    }
  }

  datatype Path = FullName | Gender | Email | Course | Password

  /** One validator failure; Mongoose reports the first failing validator of
      each path. */
  datatype Violation = Required(path: Path) | NotInEnum(path: Path) | TooShort(path: Path)

  /** A required String path holds a non-empty string. */
  predicate Present(v: Option<string>) {
    Truthy(v)
  }

  predicate PasswordPresent(p: Option<Secret>) {
    p.Some? && StoredLength(p.value) > 0
  }

  /** Every validator of the schema passes. */
  predicate Valid(d: Student) {
    && Present(d.fullName)
    && d.gender in GenderValues
    && Present(d.email)
    && Present(d.course)
    && PasswordPresent(d.password)
    && StoredLength(d.password.value) >= PasswordMinLength
  }

  /** `validate()`: the failures, in schema order. */
  function Validate(d: Student): (errors: seq<Violation>)
    ensures errors == [] <==> Valid(d)
    ensures Required(FullName) in errors <==> !Present(d.fullName)
    ensures NotInEnum(Gender) in errors <==> d.gender !in GenderValues
    ensures Required(Email) in errors <==> !Present(d.email)
    ensures Required(Course) in errors <==> !Present(d.course)
    ensures Required(Password) in errors <==> !PasswordPresent(d.password)
    ensures TooShort(Password) in errors <==>
      PasswordPresent(d.password) && StoredLength(d.password.value) < PasswordMinLength
  {
    Unless(Present(d.fullName), Required(FullName))
    + Unless(d.gender in GenderValues, NotInEnum(Gender))
    + Unless(Present(d.email), Required(Email))
    + Unless(Present(d.course), Required(Course))
    + PasswordViolations(d.password)
  }

  /** The password path's validators: `required`, then `minlength`, which
      runs only on a present value. */
  function PasswordViolations(p: Option<Secret>): (errors: seq<Violation>)
    ensures errors == [] <==> PasswordPresent(p) && StoredLength(p.value) >= PasswordMinLength
    ensures forall w :: w in errors ==> w.path == Password
    ensures Required(Password) in errors <==> !PasswordPresent(p)
    ensures TooShort(Password) in errors <==> PasswordPresent(p) && StoredLength(p.value) < PasswordMinLength
  {
    if !PasswordPresent(p) then [Required(Password)]
    else Unless(StoredLength(p.value) >= PasswordMinLength, TooShort(Password))
  }

  /** One validator's report: nothing when it passes, `v` when it fails. */
  function Unless(passes: bool, v: Violation): (errors: seq<Violation>)
    ensures forall w :: w in errors <==> !passes && w == v
  {
    if passes then [] else [v]
  }

  /** Width the hook pads the sequence to. */
  const SequenceDigits: nat := 5

  /** The hook's number: `${year}-` and `count + 1` padded to five digits. */
  function HookStudentNumber(year: nat, count: nat): (r: string)
    ensures |NatToDecimal(year)| + 1 + SequenceDigits <= |r|
    ensures r[..|NatToDecimal(year)|] == NatToDecimal(year) && r[|NatToDecimal(year)|] == '-'
    ensures AllDigits(r[|NatToDecimal(year)| + 1..])
    ensures DigitsValue(r[|NatToDecimal(year)| + 1..]) == count + 1
  {
    var y := NatToDecimal(year);
    var padded := PadStart(NatToDecimal(count + 1), SequenceDigits, '0');
    PaddedDecimal(count + 1, SequenceDigits);
    Joined(y, '-', padded);
    y + ['-'] + padded
  }

  /** The parts of `head + [sep] + tail` read back at their offsets. */
  lemma Joined(head: string, sep: char, tail: string)
    ensures var r := head + [sep] + tail;
            && |r| == |head| + 1 + |tail|
            && r[..|head|] == head && r[|head|] == sep && r[|head| + 1..] == tail
  {
    var r := head + [sep] + tail;
    assert r[|head| + 1..] == tail;
  }

  /** Zero padding a decimal keeps it a digit string of the same value. */
  lemma PaddedDecimal(n: nat, width: nat)
    ensures |PadStart(NatToDecimal(n), width, '0')| >= width
    ensures AllDigits(PadStart(NatToDecimal(n), width, '0'))
    ensures DigitsValue(PadStart(NatToDecimal(n), width, '0')) == n
  {
    var d := NatToDecimal(n);
    var padded := PadStart(d, width, '0');
    assert padded == padded[..|padded| - |d|] + d;
    LeadingZeros(padded[..|padded| - |d|], d);
  }

  /** For a four-digit year and a count below 99999 the number is ten
      characters long with the hyphen at index 4. */
  lemma HookNumberShape(year: nat, count: nat)
    requires 1000 <= year <= 9999 && count < 99999
    ensures |HookStudentNumber(year, count)| == 10 && HookStudentNumber(year, count)[4] == '-'
  {
    DecimalLength(year, 4);
    DecimalLength(year, 3);
    DecimalLength(count + 1, 5);
  }

  /** Different (year, count) pairs give different numbers: the hyphen
      separates the year, the padded suffix reads back as the count. */
  lemma HookNumberInjective(y1: nat, c1: nat, y2: nat, c2: nat)
    requires HookStudentNumber(y1, c1) == HookStudentNumber(y2, c2)
    ensures y1 == y2 && c1 == c2
  {
    var r := HookStudentNumber(y1, c1);
    var a, b := NatToDecimal(y1), NatToDecimal(y2);
    if |a| != |b| {
      assert false;
    }
    assert a == r[..|a|] == b;
  }

  /** The shape of every number the hook assigns: not all digits (there is
      a hyphen), and the last five characters are digits. */
  predicate HookShaped(n: string) {
    !AllDigits(n) && |n| >= SequenceDigits && AllDigits(n[|n| - SequenceDigits..])
  }

  /** Every stored number has the hook's shape, as it does when no handler
      passes a number of its own. */
  predicate HookMade(store: seq<Student>) {
    forall s :: s in store && s.studentNumber.Some? ==> HookShaped(s.studentNumber.value)
  }

  lemma HookNumberIsHookShaped(year: nat, count: nat)
    ensures HookShaped(HookStudentNumber(year, count))
  {
    var n := HookStudentNumber(year, count);
    var k := |NatToDecimal(year)|;
    assert !IsDigit(n[k]);
    DigitTail(n, k + 1, SequenceDigits);
  }

  /** The last `w` characters lie inside an all-digit suffix starting at
      `from`. */
  lemma DigitTail(n: string, from: nat, w: nat)
    requires from + w <= |n| && AllDigits(n[from..])
    ensures AllDigits(n[|n| - w..])
  {
    forall i | |n| - w <= i < |n|
      ensures IsDigit(n[i])
    {
      assert n[i] == n[from..][i - from];
    }
  }

  /** Why the save failed; each becomes a 500 in the handlers. */
  datatype SaveError =
    | ValidationFailed(violations: seq<Violation>)
    | HookThrew
    | DuplicateKey

  /** The pre-save hook. A number is assigned only to a new document without
      one, from the count the model lookup gives (`None` when the lookup
      throws); a modified password is replaced by its hash, which needs
      `bcrypt` to be in scope. */
  function PreSave(d: Student, isNew: bool, passwordModified: bool,
                   year: nat, count: Option<nat>, salt: nat, bcryptInScope: bool): (r: Result<Student, SaveError>)
    ensures passwordModified && !bcryptInScope ==> r == Failure(HookThrew)
    ensures isNew && !Present(d.studentNumber) && count.None? ==> r == Failure(HookThrew)
    ensures r.Success? && !(isNew && !Present(d.studentNumber)) ==>
      r.value.studentNumber == d.studentNumber
    ensures r.Success? && isNew && !Present(d.studentNumber) ==>
      count.Some? && r.value.studentNumber == Some(HookStudentNumber(year, count.value))
    ensures r.Success? && passwordModified ==>
      d.password.Some? && r.value.password == Some(Hash(d.password.value, salt))
    ensures r.Success? && !passwordModified ==> r.value.password == d.password
    ensures r.Success? ==> r.value.(studentNumber := d.studentNumber, password := d.password) == d
  {
    if isNew && !Present(d.studentNumber) && count.None? then Failure(HookThrew)
    else
      var numbered :=
        if isNew && !Present(d.studentNumber) then d.(studentNumber := Some(HookStudentNumber(year, count.value)))
        else d;
      if !passwordModified then Success(numbered)
      else if !bcryptInScope || numbered.password.None? then Failure(HookThrew)
      else Success(numbered.(password := Some(Hash(numbered.password.value, salt))))
  }

  /** What the hook needs from its surroundings: the year, the bcrypt salt,
      whether `bcrypt` is in scope, and whether `mongoose.model('Student')`
      resolves. */
  datatype SaveEnv = SaveEnv(year: nat, salt: nat, bcryptInScope: bool, modelResolves: bool)

  /** The count the hook's model lookup yields. */
  function HookCount(store: seq<Student>, env: SaveEnv): Option<nat> {
    if env.modelResolves then Some(|store|) else None
  }

  /** Some stored document already has this email or student number. */
  predicate Conflicts(store: seq<Student>, d: Student) {
    exists s :: s in store && (s.email == d.email || s.studentNumber == d.studentNumber)
  }

  /** `new Student(input).save()` on a collection holding `store`: validate,
      run the hook (the count is the size of the collection), then insert
      unless a unique index objects. */
  function SaveNew(input: StudentInput, id: string, store: seq<Student>, env: SaveEnv): (r: Result<Student, SaveError>)
    ensures !Valid(Cast(input, id)) ==> r == Failure(ValidationFailed(Validate(Cast(input, id))))
    ensures Valid(Cast(input, id)) && !env.bcryptInScope ==> r == Failure(HookThrew)
    ensures Valid(Cast(input, id)) && !Present(input.studentNumber) && !env.modelResolves ==> r == Failure(HookThrew)
    ensures r.Success? ==> Valid(Cast(input, id)) && !Conflicts(store, r.value)
    ensures r.Success? ==> r.value.id == id
    ensures r.Success? ==> r.value.email == Cast(input, id).email && r.value.fullName == Cast(input, id).fullName
    ensures r.Success? ==> r.value.password == Some(Hash(input.password.value, env.salt))
    ensures r.Success? && Present(input.studentNumber) ==> r.value.studentNumber == input.studentNumber
    ensures r.Success? && !Present(input.studentNumber) ==>
      r.value.studentNumber == Some(HookStudentNumber(env.year, |store|))
  {
    var d := Cast(input, id);
    var errors := Validate(d);
    if errors != [] then Failure(ValidationFailed(errors))
    else
      match PreSave(d, true, true, env.year, HookCount(store, env), env.salt, env.bcryptInScope)
      case Failure(e) => Failure(e)
      case Success(saved) =>
        if Conflicts(store, saved) then Failure(DuplicateKey) else Success(saved)
  }

  /** Finding: the hook calls `bcrypt` without importing it, so every save of
      a new document that passes validation throws. */
  lemma UnboundBcryptFailsEverySave(input: StudentInput, id: string, store: seq<Student>, year: nat, salt: nat)
    ensures SaveNew(input, id, store, SaveEnv(year, salt, false, true)).Failure?
  {
  }

  /** The document the hook hands to the insert when the count is the size
      of the collection: the built document, numbered if it has no number. */
  function Numbered(input: StudentInput, id: string, store: seq<Student>, year: nat): Student {
    var d := Cast(input, id);
    if Present(d.studentNumber) then d else d.(studentNumber := Some(HookStudentNumber(year, |store|)))
  }

  /** With `bcrypt` in scope and the model lookup resolving, a valid
      document whose email and number (its own, or the hook's) are fresh is
      stored with that number and its password hashed exactly once. */
  lemma BoundBcryptHashesOnce(input: StudentInput, id: string, store: seq<Student>, year: nat, salt: nat)
    requires Valid(Cast(input, id))
    requires !Conflicts(store, Numbered(input, id, store, year))
    ensures var r := SaveNew(input, id, store, SaveEnv(year, salt, true, true));
            && r.Success? && r.value.password == Some(Hash(input.password.value, salt))
            && r.value.studentNumber == Numbered(input, id, store, year).studentNumber
  {
    var d := Cast(input, id);
    assert Validate(d) == [];
    HookHashesNumbered(d, Numbered(input, id, store, year), store, year, salt);
  }

  /** The hook on a valid new document with a resolving lookup: the result
      is the numbered document with its password hashed, and it conflicts
      with the store exactly when the numbered one does. */
  lemma HookHashesNumbered(d: Student, n: Student, store: seq<Student>, year: nat, salt: nat)
    requires Valid(d)
    requires n == if Present(d.studentNumber) then d else d.(studentNumber := Some(HookStudentNumber(year, |store|)))
    ensures PreSave(d, true, true, year, Some(|store|), salt, true) == Success(n.(password := Some(Hash(d.password.value, salt))))
    ensures Conflicts(store, n.(password := Some(Hash(d.password.value, salt)))) == Conflicts(store, n)
  {
  }

  /** The `comparePassword` instance method: `bcrypt.compare` against the
      stored value. `None` is a throw: `bcrypt` is not in scope, or there is
      no stored password to compare with. */
  function ComparePassword(d: Student, candidate: string, bcryptInScope: bool): (r: Option<bool>)
    ensures r.None? <==> !bcryptInScope || d.password.None?
    ensures r == Some(true) <==> bcryptInScope && d.password.Some? && Compare(candidate, d.password.value)
  {
    if !bcryptInScope || d.password.None? then None
    else Some(Compare(candidate, d.password.value))
  }

  /** A document saved from a plain password accepts exactly that password. */
  lemma SavedPasswordCompares(input: StudentInput, id: string, store: seq<Student>, env: SaveEnv, p: string, candidate: string)
    requires input.password == Some(Plain(p))
    requires SaveNew(input, id, store, env).Success?
    ensures ComparePassword(SaveNew(input, id, store, env).value, candidate, true) == Some(candidate == p)
  {
  }

  /** `findOne({ email: query })`: Mongoose casts the query value through the
      path's setters, so the lookup key is the normalised email. */
  function FindByEmail(store: seq<Student>, query: string): (r: Option<Student>)
    ensures r.Some? ==> r.value in store && r.value.email == Some(NormalizeEmail(query))
    ensures r.None? <==> forall s :: s in store ==> s.email != Some(NormalizeEmail(query))
  {
    if store == [] then None
    else if store[0].email == Some(NormalizeEmail(query)) then Some(store[0])
    else FindByEmail(store[1..], query)
  }

  /** `findOne({ studentNumber: n })`. */
  function FindByNumber(store: seq<Student>, n: string): (r: Option<Student>)
    ensures r.Some? ==> r.value in store && r.value.studentNumber == Some(n)
    ensures r.None? <==> forall s :: s in store ==> s.studentNumber != Some(n)
  {
    if store == [] then None
    else if store[0].studentNumber == Some(n) then Some(store[0])
    else FindByNumber(store[1..], n)
  }

  /** Appending a document to a store where the email is unknown: the
      lookup finds exactly that document, if its email matches. */
  lemma FindByEmailAppend(store: seq<Student>, s: Student, query: string)
    requires FindByEmail(store, query).None?
    ensures FindByEmail(store + [s], query) == if s.email == Some(NormalizeEmail(query)) then Some(s) else None
  {
    var r := FindByEmail(store + [s], query);
    if r.Some? {
      assert r.value in store || r.value == s;
    }
  }

  /** The same for a lookup by student number. */
  lemma {:induction false} FindByNumberAppend(store: seq<Student>, s: Student, n: string)
    requires FindByNumber(store, n).None?
    ensures FindByNumber(store + [s], n) == if s.studentNumber == Some(n) then Some(s) else None
  {
    if store != [] {
      assert (store + [s])[1..] == store[1..] + [s];
      FindByNumberAppend(store[1..], s, n);
    }
  }

  /** The student numbers a query over the `studentNumber` path can see. */
  function StoredNumbers(store: seq<Student>): (numbers: seq<string>)
    ensures forall n :: n in numbers <==> exists s :: s in store && s.studentNumber == Some(n)
  {
    if store == [] then []
    else
      var rest := StoredNumbers(store[1..]);
      assert forall s :: s in store ==> s == store[0] || s in store[1..];
      match store[0].studentNumber
      case None => rest
      case Some(n) => [n] + rest
  }
}
