/**
 * The request models of the loan API: the custom field validators for the
 * national identity number (DNI) and the full name, the two-valued sex
 * enumeration, and the shapes of a loan applicant (`Person`) and of a
 * partial loan record (`LoanRecord`).
 *
 * A validator receives whatever value the JSON body carried; `PyValue`
 * stands for the run-time type of that value, so that the `isinstance`
 * checks of the validators can be stated.
 */
module RestModels {
  import opened Results

  /** The run-time type of a value handed to a field validator. */
  datatype PyValue =
    | PyInt(i: int)
    | PyBool(b: bool)   // `bool` is a subclass of `int`: isinstance(True, int) holds
    | PyFloat(x: real)
    | PyStr(s: string)
    | PyOther           // None, lists, objects, ...

  /** `isinstance(value, int)` */
  predicate IsInt(v: PyValue) {
    v.PyInt? || v.PyBool?
  }

  /** The integer an `int` (or `bool`) value denotes. */
  function IntValue(v: PyValue): int
    requires IsInt(v)
  {
    match v
    case PyInt(i) => i
    case PyBool(b) => if b then 1 else 0
  }

  /** The exceptions a validator raises; pydantic reports them per field. */
  datatype ValidationError =
    | TypeError(message: string)
    | ValueError(message: string)
    | EnumMemberError   // pydantic's error for a value outside an Enum

  // ---------------------------------------------------------------- SexEnum

  /** `SexEnum`: a `str` enumeration with exactly two members. */
  datatype Sex = Male | Female

  /** The string value of each member. */
  function SexValue(x: Sex): string {
    match x
    case Male => "masculino"
    case Female => "femenino"
  }

  /** Enum lookup by value, as pydantic does for an `Enum` field. */
  function ValidateSex(v: PyValue): (r: Result<Sex, ValidationError>)
    ensures r.Ok? <==> v.PyStr? && (v.s == "masculino" || v.s == "femenino")
    ensures r.Ok? ==> SexValue(r.value) == v.s
    ensures r.Err? ==> r.error == EnumMemberError
  {
    if v == PyStr("masculino") then Ok(Male)
    else if v == PyStr("femenino") then Ok(Female)
    else Err(EnumMemberError)
  }

  /** Looking a member up by its own value gives the member back, and the two values differ. */
  lemma SexValueRoundTrip(x: Sex)
    ensures ValidateSex(PyStr(SexValue(x))) == Ok(x)
    ensures SexValue(Male) != SexValue(Female)
  {
  }

  // -------------------------------------------------------------------- DNI

  /** A national identity number strictly between 10^6 and 10^8. */
  type Dni = x: int | 1_000_000 < x < 100_000_000 witness 1_000_001

  function ValidateDni(v: PyValue): (r: Result<Dni, ValidationError>)
    ensures r.Ok? <==> IsInt(v) && 1_000_000 < IntValue(v) < 100_000_000
    ensures r.Ok? ==> r.value == IntValue(v)
    ensures !IsInt(v) ==> r == Err(TypeError("Integer required"))
    ensures IsInt(v) && r.Err? ==> r == Err(ValueError("Verify DNI number"))
  {
    if !IsInt(v) then Err(TypeError("Integer required"))
    else if !(1_000_000 < IntValue(v) < 100_000_000) then Err(ValueError("Verify DNI number"))
    else Ok(IntValue(v))
  }

  /** Both endpoints of the range are rejected; the values next to them are accepted. */
  lemma DniBoundsAreStrict()
    ensures ValidateDni(PyInt(1_000_000)) == Err(ValueError("Verify DNI number"))
    ensures ValidateDni(PyInt(100_000_000)) == Err(ValueError("Verify DNI number"))
    ensures ValidateDni(PyInt(1_000_001)).Ok? && ValidateDni(PyInt(99_999_999)).Ok?
  {
  }

  /** A validated DNI validates again to itself. */
  lemma ValidateDniIdempotent(v: PyValue)
    requires ValidateDni(v).Ok?
    ensures ValidateDni(PyInt(ValidateDni(v).value)) == ValidateDni(v)
  {
  }

  // -------------------------------------------------------------- FullName

  /**
   * A character matched by `\s` in a Python `str` pattern: the characters
   * for which `str.isspace()` holds.
   */
  predicate IsPythonWhitespace(c: char) {
    var n := c as int;
    (0x09 <= n <= 0x0D) || (0x1C <= n <= 0x20) || n == 0x85 || n == 0xA0
    || n == 0x1680 || (0x2000 <= n <= 0x200A) || n == 0x2028 || n == 0x2029
    || n == 0x202F || n == 0x205F || n == 0x3000
  }

  /** A character of the class `[a-zA-Z\s]`. */
  predicate IsNameChar(c: char) {
    ('a' <= c <= 'z') || ('A' <= c <= 'Z') || IsPythonWhitespace(c)
  }

  /** A string made only of ASCII letters and whitespace (the empty string included). */
  type FullName = s: string | forall i :: 0 <= i < |s| ==> IsNameChar(s[i]) witness ""

  /**
   * `re.search(r"[^a-zA-Z\s]", s)`: the position of the leftmost character
   * outside the class, if there is one.
   */
  function FirstForbidden(s: string): (r: Option<nat>)
    ensures r.None? <==> forall i :: 0 <= i < |s| ==> IsNameChar(s[i])
    ensures r.Some? ==> r.value < |s| && !IsNameChar(s[r.value])
    ensures r.Some? ==> forall i :: 0 <= i < r.value ==> IsNameChar(s[i])
  {
    if |s| == 0 then None
    else if !IsNameChar(s[0]) then Some(0)
    else
      match FirstForbidden(s[1..])
      case None => None
      case Some(k) => Some(k + 1)
  }

  function ValidateFullName(v: PyValue): (r: Result<FullName, ValidationError>)
    ensures r.Ok? <==> v.PyStr? && forall i :: 0 <= i < |v.s| ==> IsNameChar(v.s[i])
    ensures r.Ok? ==> r.value == v.s
    ensures !v.PyStr? ==> r == Err(TypeError("String required"))
    ensures v.PyStr? && r.Err? ==> r == Err(ValueError("Full name only can have alphabetic characters"))
  {
    if !v.PyStr? then Err(TypeError("String required"))
    else
      match FirstForbidden(v.s)
      case Some(_) => Result<FullName, ValidationError>.Err(ValueError("Full name only can have alphabetic characters"))
      case None => Ok(v.s)
  }

  /** A validated full name validates again to itself. */
  lemma ValidateFullNameIdempotent(v: PyValue)
    requires ValidateFullName(v).Ok?
    ensures ValidateFullName(PyStr(ValidateFullName(v).value)) == ValidateFullName(v)
  {
  }

  /** The empty name is accepted; a name with a digit is refused. */
  lemma FullNameExamples()
    ensures ValidateFullName(PyStr("")) == Ok("")
    ensures ValidateFullName(PyStr("juan perez")).Ok?
    ensures ValidateFullName(PyStr("juan 2")).Err?
  {
    assert !IsNameChar("juan 2"[5]);
  }

  // ------------------------------------------------------- Person, LoanRecord

  /** E-mail addresses are validated by a library type; the model keeps them as strings. */
  type Email = string

  /** A loan applicant: every field is required. */
  datatype Person = Person(dni: Dni, fullName: FullName, genre: Sex, email: Email, loanAmount: real)

  /** A partial loan record: every field is optional and defaults to None. */
  datatype LoanRecord = LoanRecord(
    dni: Option<Dni>,
    fullName: Option<FullName>,
    genre: Option<Sex>,
    email: Option<Email>,
    loanAmount: Option<real>,
    status: Option<string>)

  /** The loan record whose every field is left at its default. */
  const EmptyLoanRecord := LoanRecord(None, None, None, None, None, None)

  /** A validation failure, reported against the field it belongs to. */
  datatype FieldError = FieldError(field: string, error: ValidationError)

  /** The values a body supplies for a `Person`; e-mail and amount arrive already parsed. */
  datatype PersonInput = PersonInput(dni: PyValue, fullName: PyValue, genre: PyValue, email: Email, loanAmount: real)

  /**
   * The values a body supplies for a `LoanRecord`; `None` is a field that
   * is absent or null, which pydantic leaves at its default without
   * calling the validator.
   */
  datatype LoanRecordInput = LoanRecordInput(
    dni: Option<PyValue>,
    fullName: Option<PyValue>,
    genre: Option<PyValue>,
    email: Option<Email>,
    loanAmount: Option<real>,
    status: Option<string>)

  /** The error list contributed by one field's validation. */
  function ErrorsOf<T>(field: string, r: Result<T, ValidationError>): seq<FieldError> {
    if r.Err? then [FieldError(field, r.error)] else []
  }

  /** An optional field: absent stays None, present goes through the field's validator. */
  function ValidateOptional<T>(v: Option<PyValue>, validate: PyValue -> Result<T, ValidationError>)
    : (r: Result<Option<T>, ValidationError>)
    ensures v.None? ==> r == Ok(None)
    ensures v.Some? ==> (r.Ok? <==> validate(v.value).Ok?)
    ensures v.Some? && r.Ok? ==> r.value == Some(validate(v.value).value)
    ensures v.Some? && r.Err? ==> r.error == validate(v.value).error
  {
    match v
    case None => Ok(None)
    case Some(x) =>
      match validate(x)
      case Ok(t) => Ok(Some(t))
      case Err(e) => Err(e)
  }

  /** Builds a `Person`, collecting the errors of all failing fields in declaration order. */
  function ParsePerson(p: PersonInput): (r: Result<Person, seq<FieldError>>)
    ensures r.Ok? <==> ValidateDni(p.dni).Ok? && ValidateFullName(p.fullName).Ok? && ValidateSex(p.genre).Ok?
    ensures r.Ok? ==> r.value.dni == IntValue(p.dni) && r.value.fullName == p.fullName.s
                      && SexValue(r.value.genre) == p.genre.s
                      && r.value.email == p.email && r.value.loanAmount == p.loanAmount
    ensures r.Err? ==> r.error != []
    ensures ValidateDni(p.dni).Err? ==> r.Err? && FieldError("dni", ValidateDni(p.dni).error) in r.error
    ensures ValidateFullName(p.fullName).Err? ==> r.Err? && FieldError("full_name", ValidateFullName(p.fullName).error) in r.error
    ensures ValidateSex(p.genre).Err? ==> r.Err? && FieldError("genre", ValidateSex(p.genre).error) in r.error
    ensures r.Err? ==> forall e :: e in r.error ==>
      || (e.field == "dni" && ValidateDni(p.dni).Err? && e.error == ValidateDni(p.dni).error)
      || (e.field == "full_name" && ValidateFullName(p.fullName).Err? && e.error == ValidateFullName(p.fullName).error)
      || (e.field == "genre" && ValidateSex(p.genre).Err? && e.error == ValidateSex(p.genre).error)
  {
    var d := ValidateDni(p.dni);
    var n := ValidateFullName(p.fullName);
    var g := ValidateSex(p.genre);
    if d.Ok? && n.Ok? && g.Ok? then Ok(Person(d.value, n.value, g.value, p.email, p.loanAmount))
    else Err(ErrorsOf("dni", d) + ErrorsOf("full_name", n) + ErrorsOf("genre", g))
  }

  /** Builds a `LoanRecord`; a present field obeys the same validator as in `Person`. */
  function ParseLoanRecord(l: LoanRecordInput): (r: Result<LoanRecord, seq<FieldError>>)
    ensures r.Ok? <==> (l.dni.Some? ==> ValidateDni(l.dni.value).Ok?)
                       && (l.fullName.Some? ==> ValidateFullName(l.fullName.value).Ok?)
                       && (l.genre.Some? ==> ValidateSex(l.genre.value).Ok?)
    ensures r.Ok? ==> (r.value.dni.None? <==> l.dni.None?) && (r.value.fullName.None? <==> l.fullName.None?)
                      && (r.value.genre.None? <==> l.genre.None?)
                      && r.value.email == l.email && r.value.loanAmount == l.loanAmount && r.value.status == l.status
    ensures r.Ok? && l.dni.Some? ==> r.value.dni == Some(ValidateDni(l.dni.value).value)
    ensures r.Ok? && l.fullName.Some? ==> r.value.fullName == Some(ValidateFullName(l.fullName.value).value)
    ensures r.Ok? && l.genre.Some? ==> r.value.genre == Some(ValidateSex(l.genre.value).value)
    ensures r.Err? ==> r.error != []
    ensures l.dni.Some? && ValidateDni(l.dni.value).Err? ==>
      r.Err? && FieldError("dni", ValidateDni(l.dni.value).error) in r.error
    ensures l.fullName.Some? && ValidateFullName(l.fullName.value).Err? ==>
      r.Err? && FieldError("full_name", ValidateFullName(l.fullName.value).error) in r.error
    ensures l.genre.Some? && ValidateSex(l.genre.value).Err? ==>
      r.Err? && FieldError("genre", ValidateSex(l.genre.value).error) in r.error
    ensures r.Err? ==> forall e :: e in r.error ==>
      || (e.field == "dni" && l.dni.Some? && ValidateDni(l.dni.value).Err? && e.error == ValidateDni(l.dni.value).error)
      || (e.field == "full_name" && l.fullName.Some? && ValidateFullName(l.fullName.value).Err?
          && e.error == ValidateFullName(l.fullName.value).error)
      || (e.field == "genre" && l.genre.Some? && ValidateSex(l.genre.value).Err? && e.error == ValidateSex(l.genre.value).error)
  {
    var d := ValidateOptional(l.dni, ValidateDni);
    var n := ValidateOptional(l.fullName, ValidateFullName);
    var g := ValidateOptional(l.genre, ValidateSex);
    if d.Ok? && n.Ok? && g.Ok? then Ok(LoanRecord(d.value, n.value, g.value, l.email, l.loanAmount, l.status))
    else Err(ErrorsOf("dni", d) + ErrorsOf("full_name", n) + ErrorsOf("genre", g))
  }

  /** A body with no fields gives the record whose every field is None. */
  lemma LoanRecordDefaultsToNone()
    ensures ParseLoanRecord(LoanRecordInput(None, None, None, None, None, None)) == Ok(EmptyLoanRecord)
  {
  }

  /** The loan-record input carrying every field of a person's input. */
  function PersonAsLoanRecordInput(p: PersonInput): LoanRecordInput {
    LoanRecordInput(Some(p.dni), Some(p.fullName), Some(p.genre), Some(p.email), Some(p.loanAmount), None)
  }

  /**
   * The fields of a `LoanRecord` are validated exactly as those of a
   * `Person`: the same values are accepted, to the same results, and the
   * same errors are reported.
   */
  lemma LoanRecordValidatesLikePerson(p: PersonInput)
    ensures ParseLoanRecord(PersonAsLoanRecordInput(p)).Ok? <==> ParsePerson(p).Ok?
    ensures ParsePerson(p).Ok? ==>
      var person := ParsePerson(p).value;
      ParseLoanRecord(PersonAsLoanRecordInput(p))
        == Ok(LoanRecord(Some(person.dni), Some(person.fullName), Some(person.genre),
                         Some(person.email), Some(person.loanAmount), None))
    ensures ParsePerson(p).Err? ==> ParseLoanRecord(PersonAsLoanRecordInput(p)).error == ParsePerson(p).error
  {
  }

  // ------------------------------------------------------------ credentials

  /** An administrator's username and password (plain text at sign-up, the stored hash when read back). */
  datatype Admin = Admin(username: string, password: string)
}
