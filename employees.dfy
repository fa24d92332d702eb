/**
 * Employee records and the store's validation rules: required fields, the
 * e-mail and phone shapes, the date and age rules, the two enumerations, and
 * the three uniqueness rules (e-mail, normalised phone, same person).
 */
module Employees {
  import opened Wrappers
  import opened Text
  import opened Dates

  /** A stored record; `id` is assigned by the store and never changes. */
  datatype Employee = Employee(
    id: string,
    firstName: string,
    lastName: string,
    email: string,
    phone: string,
    dateOfEmployment: Date,
    dateOfBirth: Date,
    department: string,
    position: string)

  /**
   * What a caller submits to `add` or `update`. A missing text field is the
   * empty string; a missing date is `None`.
   */
  datatype EmployeeData = EmployeeData(
    firstName: string,
    lastName: string,
    email: string,
    phone: string,
    dateOfEmployment: Option<Date>,
    dateOfBirth: Option<Date>,
    department: string,
    position: string)

  /**
   * The error object of `validateEmployee`: one optional message per key;
   * `duplicate` is the key of the same-person rule.
   */
  datatype Errors = Errors(
    firstName: Option<Message>,
    lastName: Option<Message>,
    email: Option<Message>,
    phone: Option<Message>,
    dateOfEmployment: Option<Message>,
    dateOfBirth: Option<Message>,
    department: Option<Message>,
    position: Option<Message>,
    duplicate: Option<Message>)

  const NoErrors := Errors(None, None, None, None, None, None, None, None, None)

  const MinimumAge := 15

  /** The messages the error object can hold. */
  datatype Message =
    | FirstNameRequired
    | LastNameRequired
    | EmailRequired
    | PhoneRequired
    | EmploymentDateRequired
    | BirthDateRequired
    | DepartmentRequired
    | PositionRequired
    | InvalidEmail
    | InvalidPhone
    | EmploymentInFuture
    | TooYoung
    | BirthNotBeforeEmployment
    | TooYoungAtEmployment
    | UnknownDepartment
    | UnknownPosition
    | EmailExists
    | PhoneExists
    | SamePersonExists

  /** The text of each message, as the store writes it. */
  function MessageText(m: Message): string {
    match m
    case FirstNameRequired => "First name is required"
    case LastNameRequired => "Last name is required"
    case EmailRequired => "Email is required"
    case PhoneRequired => "Phone is required"
    case EmploymentDateRequired => "Date of employment is required"
    case BirthDateRequired => "Date of birth is required"
    case DepartmentRequired => "Department is required"
    case PositionRequired => "Position is required"
    case InvalidEmail => "Invalid email format"
    case InvalidPhone => "Invalid phone format"
    case EmploymentInFuture => "Employment date cannot be in the future"
    case TooYoung => "Employee must be at least 15 years old"
    case BirthNotBeforeEmployment => "Birth date must be before employment date"
    case TooYoungAtEmployment => "Employee must be at least 15 years old at employment date"
    case UnknownDepartment => "Department must be Analytics or Tech"
    case UnknownPosition => "Position must be Junior, Medior, or Senior"
    case EmailExists => "Email already exists"
    case PhoneExists => "Phone number already exists"
    case SamePersonExists => "An employee with the same name and birth date already exists"
  }

  predicate IsDepartment(s: string) {
    s == "Analytics" || s == "Tech"
  }

  predicate IsPosition(s: string) {
    s == "Junior" || s == "Medior" || s == "Senior"
  }

  // ---------------------------------------------------------------------
  // The e-mail pattern ^[^\s@]+@[^\s@]+\.[^\s@]+$

  /** `s[lo..hi]` is one or more characters that are neither white space nor `@`: `[^\s@]+`. */
  predicate PlainRange(s: string, lo: int, hi: int) {
    0 <= lo < hi <= |s| && forall k :: lo <= k < hi ==> !IsSpace(s[k]) && s[k] != '@'
  }

  /**
   * The whole address is a plain run, an `@` at `i`, a plain run, a `.` at
   * `j` and a plain run; the runs after the `@` may hold further dots, so
   * any such `j` will do, as the backtracking of the pattern allows.
   */
  predicate EmailShape(s: string) {
    exists i, j :: 0 <= i < j < |s| && s[i] == '@' && s[j] == '.'
      && PlainRange(s, 0, i) && PlainRange(s, i + 1, j) && PlainRange(s, j + 1, |s|)
  }

  /** A well-formed address contains no white space, so `trim` leaves it as it is. */
  lemma EmailShapeHasNoSpace(s: string)
    requires EmailShape(s)
    ensures NoSpace(s) && Trim(s) == s && s != []
  {
    var i, j :| 0 <= i < j < |s| && s[i] == '@' && s[j] == '.'
      && PlainRange(s, 0, i) && PlainRange(s, i + 1, j) && PlainRange(s, j + 1, |s|);
    forall k | 0 <= k < |s| ensures !IsSpace(s[k]) {
      if k == i || k == j {
      }
    }
    TrimNoSpace(s);
  }

  // ---------------------------------------------------------------------
  // The phone pattern ^\+?[\d\s\-()]{10,15}$ and the normalised form

  predicate PhoneChar(c: char) {
    ('0' <= c <= '9') || IsSpace(c) || c == '-' || c == '(' || c == ')'
  }

  /** `+` is not in the class, so a leading `+` can only be the optional prefix. */
  predicate PhoneShape(s: string) {
    var body := if s != [] && s[0] == '+' then s[1..] else s;
    10 <= |body| <= 15 && forall k :: 0 <= k < |body| ==> PhoneChar(body[k])
  }

  /** The characters `normalizePhone` deletes: `[\s\-()]`. */
  predicate Stripped(c: char) {
    IsSpace(c) || c == '-' || c == '(' || c == ')'
  }

  /** `phone.replace(/[\s\-()]/g, '')`. */
  function NormalizePhone(s: string): (r: string)
    ensures |r| <= |s|
    ensures forall k :: 0 <= k < |r| ==> !Stripped(r[k])
  {
    if s == [] then [] else (if Stripped(s[0]) then [] else [s[0]]) + NormalizePhone(s[1..])
  }

  /** Normalising works piece by piece: every kept character stays where it was relative to the others. */
  lemma {:induction false} NormalizePhoneConcat(a: string, b: string)
    ensures NormalizePhone(a + b) == NormalizePhone(a) + NormalizePhone(b)
  {
    if a != [] {
      assert (a + b)[0] == a[0];
      assert (a + b)[1..] == a[1..] + b;
      NormalizePhoneConcat(a[1..], b);
      var head := if Stripped(a[0]) then [] else [a[0]];
      calc {
        NormalizePhone(a + b);
        head + NormalizePhone(a[1..] + b);
        head + (NormalizePhone(a[1..]) + NormalizePhone(b));
        (head + NormalizePhone(a[1..])) + NormalizePhone(b);
        NormalizePhone(a) + NormalizePhone(b);
      }
    } else {
      assert a + b == b;
    }
  }

  /** One character is dropped exactly when it is stripped, and kept unchanged otherwise. */
  lemma NormalizePhoneChar(c: char)
    ensures NormalizePhone([c]) == if Stripped(c) then [] else [c]
  {
  }

  /** A string without stripped characters is already normal. */
  lemma {:induction false} NormalizePhoneKeeps(s: string)
    requires forall k :: 0 <= k < |s| ==> !Stripped(s[k])
    ensures NormalizePhone(s) == s
  {
    if s != [] {
      NormalizePhoneKeeps(s[1..]);
    }
  }

  lemma NormalizePhoneIdempotent(s: string)
    ensures NormalizePhone(NormalizePhone(s)) == NormalizePhone(s)
  {
    NormalizePhoneKeeps(NormalizePhone(s));
  }

  lemma {:induction false} NormalizePhoneAllSpace(s: string)
    requires AllSpace(s)
    ensures NormalizePhone(s) == []
  {
    if s != [] {
      NormalizePhoneAllSpace(s[1..]);
    }
  }

  /** The store keeps the trimmed phone; trimming does not change its normal form. */
  lemma NormalizePhoneTrim(s: string)
    ensures NormalizePhone(Trim(s)) == NormalizePhone(s)
  {
    var b := TrimBounds(s);
    var lead, tail := s[..b.0], s[b.1..];
    TrimParts(s);
    NormalizePhoneConcat(lead + Trim(s), tail);
    NormalizePhoneConcat(lead, Trim(s));
    NormalizePhoneAllSpace(lead);
    NormalizePhoneAllSpace(tail);
  }

  /** The example of the store's tests: `'+1 (555) 123-4567'` becomes `'+15551234567'`. */
  lemma NormalizePhoneExample()
    ensures NormalizePhone("+1 (555) 123-4567") == "+15551234567"
  {
    var a, b, c, d := "+1 ", "(555) ", "123-", "4567";
    ExampleSplit();
    NormalizePhoneConcat(a + b + c, d);
    NormalizePhoneConcat(a + b, c);
    NormalizePhoneConcat(a, b);
    ExampleCountryCode();
    ExampleAreaCode();
    ExampleExchange();
    ExampleLine();
    ExampleJoin();
  }

  // The pieces of the example, one group of digits at a time.
  lemma ExampleSplit() ensures "+1 " + "(555) " + "123-" + "4567" == "+1 (555) 123-4567" { }
  lemma ExampleJoin() ensures "+1" + "555" + "123" + "4567" == "+15551234567" { }
  lemma ExampleCountryCode() ensures NormalizePhone("+1 ") == "+1" { }
  lemma ExampleAreaCode() ensures NormalizePhone("(555) ") == "555" { }
  lemma ExampleExchange() ensures NormalizePhone("123-") == "123" { }
  lemma ExampleLine() ensures NormalizePhone("4567") == "4567" { }

  // ---------------------------------------------------------------------
  // Uniqueness rules

  /** `emp.id !== excludeId`, with `None` for the `null` that `add` passes. */
  predicate Considered(e: Employee, excludeId: Option<string>) {
    excludeId.None? || e.id != excludeId.value
  }

  predicate EmailTaken(es: seq<Employee>, email: string, excludeId: Option<string>) {
    exists k :: 0 <= k < |es| && Considered(es[k], excludeId) && ToLower(es[k].email) == ToLower(email)
  }

  predicate PhoneTaken(es: seq<Employee>, phone: string, excludeId: Option<string>) {
    exists k :: 0 <= k < |es| && Considered(es[k], excludeId)
      && NormalizePhone(es[k].phone) == NormalizePhone(phone)
  }

  /** Two stored records describe the same person: same lower-cased names and the same birth date. */
  predicate SamePerson(a: Employee, b: Employee) {
    && ToLower(a.firstName) == ToLower(b.firstName)
    && ToLower(a.lastName) == ToLower(b.lastName)
    && a.dateOfBirth == b.dateOfBirth
  }

  /**
   * The same-person rule as the source writes it: the submitted names are
   * compared UNTRIMMED with the stored (trimmed) names.
   */
  predicate DuplicatePersonAsWritten(es: seq<Employee>, d: EmployeeData, excludeId: Option<string>) {
    d.dateOfBirth.Some? &&
    exists k :: 0 <= k < |es| && Considered(es[k], excludeId)
      && ToLower(es[k].firstName) == ToLower(d.firstName)
      && ToLower(es[k].lastName) == ToLower(d.lastName)
      && es[k].dateOfBirth == d.dateOfBirth.value
  }

  /** The same-person rule on the names as they will be stored, that is trimmed. */
  predicate DuplicatePerson(es: seq<Employee>, d: EmployeeData, excludeId: Option<string>) {
    d.dateOfBirth.Some? &&
    exists k :: 0 <= k < |es| && Considered(es[k], excludeId)
      && ToLower(es[k].firstName) == ToLower(Trim(d.firstName))
      && ToLower(es[k].lastName) == ToLower(Trim(d.lastName))
      && es[k].dateOfBirth == d.dateOfBirth.value
  }

  // ---------------------------------------------------------------------
  // validateEmployee

  /** Which of the source's checks fire, in the order the source runs them. */
  datatype Verdicts = Verdicts(
    firstNameBlank: bool,
    lastNameBlank: bool,
    emailBlank: bool,
    phoneBlank: bool,
    employmentDateMissing: bool,
    birthDateMissing: bool,
    departmentBlank: bool,
    positionBlank: bool,
    emailMalformed: bool,
    phoneMalformed: bool,
    employmentInFuture: bool,
    tooYoung: bool,
    birthNotBeforeEmployment: bool,
    tooYoungAtEmployment: bool,
    unknownDepartment: bool,
    unknownPosition: bool,
    emailTaken: bool,
    phoneTaken: bool,
    duplicatePerson: bool)

  /**
   * The condition of every check, each with the guard the source puts in
   * front of it (a check on a text field runs only when the field is not
   * empty; the age-at-employment check only when the birth date is earlier).
   * `duplicate` is the verdict of the same-person rule.
   */
  function CheckVerdicts(es: seq<Employee>, d: EmployeeData, excludeId: Option<string>, today: Date, duplicate: bool): Verdicts {
    var both := d.dateOfBirth.Some? && d.dateOfEmployment.Some?;
    Verdicts(
      firstNameBlank := Trim(d.firstName) == [],
      lastNameBlank := Trim(d.lastName) == [],
      emailBlank := Trim(d.email) == [],
      phoneBlank := Trim(d.phone) == [],
      employmentDateMissing := d.dateOfEmployment.None?,
      birthDateMissing := d.dateOfBirth.None?,
      departmentBlank := Trim(d.department) == [],
      positionBlank := Trim(d.position) == [],
      emailMalformed := d.email != [] && !EmailShape(d.email),
      phoneMalformed := d.phone != [] && !PhoneShape(d.phone),
      employmentInFuture := d.dateOfEmployment.Some? && Before(today, d.dateOfEmployment.value),
      tooYoung := d.dateOfBirth.Some? && AgeAt(d.dateOfBirth.value, today) < MinimumAge,
      birthNotBeforeEmployment := both && !Before(d.dateOfBirth.value, d.dateOfEmployment.value),
      tooYoungAtEmployment :=
        both && Before(d.dateOfBirth.value, d.dateOfEmployment.value)
        && AgeAt(d.dateOfBirth.value, d.dateOfEmployment.value) < MinimumAge,
      unknownDepartment := d.department != [] && !IsDepartment(d.department),
      unknownPosition := d.position != [] && !IsPosition(d.position),
      emailTaken := d.email != [] && EmailTaken(es, d.email, excludeId),
      phoneTaken := d.phone != [] && PhoneTaken(es, d.phone, excludeId),
      duplicatePerson := d.firstName != [] && d.lastName != [] && d.dateOfBirth.Some? && duplicate)
  }

  /**
   * The error object the checks leave behind. A check that fires overwrites
   * the message an earlier one left under the same key; read key by key, that
   * is a priority list in which the check that runs last comes first.
   */
  function ErrorsFrom(v: Verdicts): Errors {
    Errors(
      firstName := if v.firstNameBlank then Some(FirstNameRequired) else None,
      lastName := if v.lastNameBlank then Some(LastNameRequired) else None,
      email :=
        if v.emailTaken then Some(EmailExists)
        else if v.emailMalformed then Some(InvalidEmail)
        else if v.emailBlank then Some(EmailRequired)
        else None,
      phone :=
        if v.phoneTaken then Some(PhoneExists)
        else if v.phoneMalformed then Some(InvalidPhone)
        else if v.phoneBlank then Some(PhoneRequired)
        else None,
      dateOfEmployment :=
        if v.tooYoungAtEmployment && !v.birthNotBeforeEmployment then Some(TooYoungAtEmployment)
        else if v.employmentInFuture then Some(EmploymentInFuture)
        else if v.employmentDateMissing then Some(EmploymentDateRequired)
        else None,
      dateOfBirth :=
        if v.birthNotBeforeEmployment then Some(BirthNotBeforeEmployment)
        else if v.tooYoung then Some(TooYoung)
        else if v.birthDateMissing then Some(BirthDateRequired)
        else None,
      department :=
        if v.unknownDepartment then Some(UnknownDepartment)
        else if v.departmentBlank then Some(DepartmentRequired)
        else None,
      position :=
        if v.unknownPosition then Some(UnknownPosition)
        else if v.positionBlank then Some(PositionRequired)
        else None,
      duplicate := if v.duplicatePerson then Some(SamePersonExists) else None)
  }

  /** `null` when the error object has no key, otherwise the error object. */
  function Outcome(errors: Errors): Option<Errors> {
    if errors == NoErrors then None else Some(errors)
  }

  /** What `validateEmployee` returns, for a given verdict of the same-person rule. */
  function ValidationResult(es: seq<Employee>, d: EmployeeData, excludeId: Option<string>, today: Date, duplicate: bool): Option<Errors> {
    Outcome(ErrorsFrom(CheckVerdicts(es, d, excludeId, today, duplicate)))
  }

  /** The source's validation as written: untrimmed names in the same-person rule. */
  function ValidationAsWritten(es: seq<Employee>, d: EmployeeData, excludeId: Option<string>, today: Date): Option<Errors> {
    ValidationResult(es, d, excludeId, today, DuplicatePersonAsWritten(es, d, excludeId))
  }

  /** The validation the store uses: the same-person rule on the names as they will be stored. */
  function Validation(es: seq<Employee>, d: EmployeeData, excludeId: Option<string>, today: Date): Option<Errors> {
    ValidationResult(es, d, excludeId, today, DuplicatePerson(es, d, excludeId))
  }

  /**
   * The checks of `validateEmployee` up to its return: in the source's order,
   * none of them stopping the others, each writing its key of the error
   * object (one local per key), a later check overwriting an earlier one.
   */
  method RunChecks(v: Verdicts) returns (errors: Errors)
    ensures errors == ErrorsFrom(v)
  {
    var firstName, lastName, email, phone: Option<Message> := None, None, None, None;
    var dateOfEmployment, dateOfBirth, department, position, duplicate: Option<Message> := None, None, None, None, None;
    if v.firstNameBlank { firstName := Some(FirstNameRequired); }
    if v.lastNameBlank { lastName := Some(LastNameRequired); }
    if v.emailBlank { email := Some(EmailRequired); }
    if v.phoneBlank { phone := Some(PhoneRequired); }
    if v.employmentDateMissing { dateOfEmployment := Some(EmploymentDateRequired); }
    if v.birthDateMissing { dateOfBirth := Some(BirthDateRequired); }
    if v.departmentBlank { department := Some(DepartmentRequired); }
    if v.positionBlank { position := Some(PositionRequired); }
    if v.emailMalformed { email := Some(InvalidEmail); }
    if v.phoneMalformed { phone := Some(InvalidPhone); }
    if v.employmentInFuture { dateOfEmployment := Some(EmploymentInFuture); }
    if v.tooYoung { dateOfBirth := Some(TooYoung); }
    if v.birthNotBeforeEmployment {
      dateOfBirth := Some(BirthNotBeforeEmployment);
    } else if v.tooYoungAtEmployment {
      dateOfEmployment := Some(TooYoungAtEmployment);
    }
    if v.unknownDepartment { department := Some(UnknownDepartment); }
    if v.unknownPosition { position := Some(UnknownPosition); }
    if v.emailTaken { email := Some(EmailExists); }
    if v.phoneTaken { phone := Some(PhoneExists); }
    if v.duplicatePerson { duplicate := Some(SamePersonExists); }
    errors := Errors(firstName, lastName, email, phone, dateOfEmployment, dateOfBirth, department, position, duplicate);
  }

  /** Every rule of the store, stated positively. */
  predicate Acceptable(es: seq<Employee>, d: EmployeeData, excludeId: Option<string>, today: Date, duplicate: bool) {
    && Trim(d.firstName) != [] && Trim(d.lastName) != []
    && EmailShape(d.email) && !EmailTaken(es, d.email, excludeId)
    && Trim(d.phone) != [] && PhoneShape(d.phone) && !PhoneTaken(es, d.phone, excludeId)
    && d.dateOfEmployment.Some? && d.dateOfBirth.Some?
    && !Before(today, d.dateOfEmployment.value)
    && AgeAt(d.dateOfBirth.value, today) >= MinimumAge
    && Before(d.dateOfBirth.value, d.dateOfEmployment.value)
    && AgeAt(d.dateOfBirth.value, d.dateOfEmployment.value) >= MinimumAge
    && IsDepartment(d.department) && IsPosition(d.position)
    && !duplicate
  }

  /** No check fires. */
  predicate NoneFires(v: Verdicts) {
    && !v.firstNameBlank && !v.lastNameBlank && !v.emailBlank && !v.phoneBlank
    && !v.employmentDateMissing && !v.birthDateMissing && !v.departmentBlank
    && !v.positionBlank && !v.emailMalformed && !v.phoneMalformed
    && !v.employmentInFuture && !v.tooYoung && !v.birthNotBeforeEmployment
    && !v.tooYoungAtEmployment && !v.unknownDepartment && !v.unknownPosition
    && !v.emailTaken && !v.phoneTaken && !v.duplicatePerson
  }

  /** The error object is empty exactly when no check fires. */
  lemma NoErrorsIffNoneFires(v: Verdicts)
    ensures ErrorsFrom(v) == NoErrors <==> NoneFires(v)
  {
  }

  /** A field that trims to something is not empty. */
  lemma TrimmedNonEmpty(s: string)
    ensures Trim(s) != [] ==> s != []
  {
  }

  /** The literal department and position names have no surrounding spaces. */
  lemma ListedNamesTrimmed(s: string)
    ensures IsDepartment(s) || IsPosition(s) ==> Trim(s) != []
  {
    if IsDepartment(s) || IsPosition(s) {
      assert !IsSpace(s[0]);
    }
  }

  /** The checks on the email, taken together, accept exactly a well-formed email nobody else has. */
  lemma EmailChecks(es: seq<Employee>, d: EmployeeData, excludeId: Option<string>, today: Date, duplicate: bool)
    ensures var v := CheckVerdicts(es, d, excludeId, today, duplicate);
      !v.emailBlank && !v.emailMalformed && !v.emailTaken <==> EmailShape(d.email) && !EmailTaken(es, d.email, excludeId)
  {
    TrimmedNonEmpty(d.email);
    if EmailShape(d.email) {
      EmailShapeHasNoSpace(d.email);
    }
  }

  /** The checks on the phone, taken together. */
  lemma PhoneChecks(es: seq<Employee>, d: EmployeeData, excludeId: Option<string>, today: Date, duplicate: bool)
    ensures var v := CheckVerdicts(es, d, excludeId, today, duplicate);
      !v.phoneBlank && !v.phoneMalformed && !v.phoneTaken <==> Trim(d.phone) != [] && PhoneShape(d.phone) && !PhoneTaken(es, d.phone, excludeId)
  {
    TrimmedNonEmpty(d.phone);
  }

  /** The checks on the two dates, taken together. */
  lemma DateChecks(es: seq<Employee>, d: EmployeeData, excludeId: Option<string>, today: Date, duplicate: bool)
    ensures var v := CheckVerdicts(es, d, excludeId, today, duplicate);
      (&& !v.employmentDateMissing && !v.birthDateMissing && !v.employmentInFuture
       && !v.tooYoung && !v.birthNotBeforeEmployment && !v.tooYoungAtEmployment)
      <==>
      (&& d.dateOfEmployment.Some? && d.dateOfBirth.Some?
       && !Before(today, d.dateOfEmployment.value)
       && AgeAt(d.dateOfBirth.value, today) >= MinimumAge
       && Before(d.dateOfBirth.value, d.dateOfEmployment.value)
       && AgeAt(d.dateOfBirth.value, d.dateOfEmployment.value) >= MinimumAge)
  {
  }

  /** The checks on the names, the department, the position and the same-person rule. */
  lemma OtherChecks(es: seq<Employee>, d: EmployeeData, excludeId: Option<string>, today: Date, duplicate: bool)
    ensures var v := CheckVerdicts(es, d, excludeId, today, duplicate);
      (&& !v.firstNameBlank && !v.lastNameBlank && !v.departmentBlank && !v.positionBlank
       && !v.unknownDepartment && !v.unknownPosition && !v.duplicatePerson
       && !v.birthDateMissing)
      <==>
      (&& Trim(d.firstName) != [] && Trim(d.lastName) != []
       && IsDepartment(d.department) && IsPosition(d.position)
       && !duplicate && d.dateOfBirth.Some?)
  {
    TrimmedNonEmpty(d.firstName);
    TrimmedNonEmpty(d.lastName);
    TrimmedNonEmpty(d.department);
    TrimmedNonEmpty(d.position);
    ListedNamesTrimmed(d.department);
    ListedNamesTrimmed(d.position);
  }

  /** `validateEmployee` returns `null` exactly when no rule fires. */
  lemma ValidationNoneIffAcceptable(es: seq<Employee>, d: EmployeeData, excludeId: Option<string>, today: Date, duplicate: bool)
    ensures ValidationResult(es, d, excludeId, today, duplicate).None? <==> Acceptable(es, d, excludeId, today, duplicate)
  {
    var v := CheckVerdicts(es, d, excludeId, today, duplicate);
    NoErrorsIffNoneFires(v);
    EmailChecks(es, d, excludeId, today, duplicate);
    PhoneChecks(es, d, excludeId, today, duplicate);
    DateChecks(es, d, excludeId, today, duplicate);
    OtherChecks(es, d, excludeId, today, duplicate);
  }

  // ---------------------------------------------------------------------
  // The record `add` and `update` store, and the uniqueness invariant

  /**
   * The record built from accepted data: the four text fields trimmed, the
   * dates, department and position as submitted. Accepted data always has
   * both dates.
   */
  function Build(id: string, d: EmployeeData): (e: Employee)
    requires d.dateOfEmployment.Some? && d.dateOfBirth.Some?
    ensures e.id == id
    ensures e.firstName == Trim(d.firstName) && e.lastName == Trim(d.lastName)
    ensures e.email == Trim(d.email) && e.phone == Trim(d.phone)
  {
    Employee(id, Trim(d.firstName), Trim(d.lastName), Trim(d.email), Trim(d.phone),
             d.dateOfEmployment.value, d.dateOfBirth.value, d.department, d.position)
  }

  /** Two records that may both be in the store: every uniqueness rule holds between them. */
  predicate Compatible(a: Employee, b: Employee) {
    && a.id != b.id
    && ToLower(a.email) != ToLower(b.email)
    && NormalizePhone(a.phone) != NormalizePhone(b.phone)
    && !SamePerson(a, b)
  }

  /** The invariant the validation rules are there to keep: distinct ids, e-mails, phones and persons. */
  predicate UniqueRecords(es: seq<Employee>) {
    forall i, j :: 0 <= i < j < |es| ==> Compatible(es[i], es[j])
  }

  /** A record compatible with every record of `es` (other than the one at `skip`, if any). */
  predicate CompatibleWithAll(es: seq<Employee>, e: Employee, skip: Option<nat>) {
    forall k :: 0 <= k < |es| && (skip.None? || k != skip.value) ==> Compatible(es[k], e)
  }

  /** Accepted data is compatible with every record the validation considered. */
  lemma {:induction false} AcceptedIsCompatible(es: seq<Employee>, d: EmployeeData, excludeId: Option<string>, today: Date, id: string, k: nat)
    requires Validation(es, d, excludeId, today).None?
    requires k < |es| && Considered(es[k], excludeId) && es[k].id != id
    ensures d.dateOfEmployment.Some? && d.dateOfBirth.Some?
    ensures Compatible(es[k], Build(id, d))
  {
    ValidationNoneIffAcceptable(es, d, excludeId, today, DuplicatePerson(es, d, excludeId));
    EmailShapeHasNoSpace(d.email);
    NormalizePhoneTrim(d.phone);
    var e := Build(id, d);
    assert ToLower(es[k].email) != ToLower(e.email);
    assert NormalizePhone(es[k].phone) != NormalizePhone(e.phone);
  }

  /** Adding a record that `add` accepted, under an id nobody has, keeps the records unique. */
  lemma AcceptedAddKeepsUnique(es: seq<Employee>, d: EmployeeData, today: Date, id: string)
    requires UniqueRecords(es)
    requires Validation(es, d, None, today).None?
    requires forall k :: 0 <= k < |es| ==> es[k].id != id
    ensures d.dateOfEmployment.Some? && d.dateOfBirth.Some?
    ensures UniqueRecords(es + [Build(id, d)])
  {
    ValidationNoneIffAcceptable(es, d, None, today, DuplicatePerson(es, d, None));
    var es' := es + [Build(id, d)];
    forall i, j | 0 <= i < j < |es'| ensures Compatible(es'[i], es'[j]) {
      if j == |es| {
        AcceptedIsCompatible(es, d, None, today, id, i);
      }
    }
  }

  /** Replacing a record by what `update` accepted for its id keeps the records unique. */
  lemma AcceptedUpdateKeepsUnique(es: seq<Employee>, idx: nat, d: EmployeeData, today: Date)
    requires UniqueRecords(es)
    requires idx < |es|
    requires Validation(es, d, Some(es[idx].id), today).None?
    ensures d.dateOfEmployment.Some? && d.dateOfBirth.Some?
    ensures UniqueRecords(es[idx := Build(es[idx].id, d)])
  {
    ValidationNoneIffAcceptable(es, d, Some(es[idx].id), today, DuplicatePerson(es, d, Some(es[idx].id)));
    var e := Build(es[idx].id, d);
    var es' := es[idx := e];
    forall i, j | 0 <= i < j < |es'| ensures Compatible(es'[i], es'[j]) {
      if i == idx {
        assert es[j].id != es[idx].id by { assert Compatible(es[i], es[j]); }
        AcceptedIsCompatible(es, d, Some(es[idx].id), today, es[idx].id, j);
        CompatibleSymmetric(es[j], e);
      } else if j == idx {
        assert es[i].id != es[idx].id by { assert Compatible(es[i], es[j]); }
        AcceptedIsCompatible(es, d, Some(es[idx].id), today, es[idx].id, i);
      }
    }
  }

  lemma CompatibleSymmetric(a: Employee, b: Employee)
    requires Compatible(a, b)
    ensures Compatible(b, a)
  {
  }

  /** Removing a record keeps the others unique. */
  lemma RemoveKeepsUnique(es: seq<Employee>, idx: nat)
    requires UniqueRecords(es)
    requires idx < |es|
    ensures UniqueRecords(es[..idx] + es[idx + 1..])
  {
    var es' := es[..idx] + es[idx + 1..];
    forall i, j | 0 <= i < j < |es'| ensures Compatible(es'[i], es'[j]) {
      var i' := if i < idx then i else i + 1;
      var j' := if j < idx then j else j + 1;
      assert es'[i] == es[i'] && es'[j] == es[j'];
    }
  }

  // ---------------------------------------------------------------------
  // The same-person rule as written

  /** When the submitted names carry no surrounding white space the two rules agree. */
  lemma AsWrittenAgreesOnTrimmedNames(es: seq<Employee>, d: EmployeeData, excludeId: Option<string>, today: Date)
    requires Trim(d.firstName) == d.firstName && Trim(d.lastName) == d.lastName
    ensures ValidationAsWritten(es, d, excludeId, today) == Validation(es, d, excludeId, today)
  {
  }

  /** A string of decimal digits only. */
  predicate Digits(s: string) {
    forall k :: 0 <= k < |s| ==> '0' <= s[k] <= '9'
  }

  /** `normalizePhone` keeps digits. */
  lemma DigitsNormal(s: string)
    requires Digits(s)
    ensures NormalizePhone(s) == s
  {
    NormalizePhoneKeeps(s);
  }

  /** Ten to fifteen digits match the phone pattern. */
  lemma DigitsPhoneShape(s: string)
    requires Digits(s) && 10 <= |s| <= 15
    ensures PhoneShape(s)
  {
    assert s[0] != '+';
    forall k | 0 <= k < |s| ensures PhoneChar(s[k]) {
      assert '0' <= s[k] <= '9';
    }
  }

  /** A stored record of the counterexample below. */
  const SampleStored := Employee("a", "John", "Doe", "john@x.io", "5551234567",
                                 Date(2010, 1, 1), Date(1990, 1, 1), "Tech", "Junior")

  /** The same person again, with a leading space in the first name and a new e-mail and phone. */
  const SampleData := EmployeeData(" John", "Doe", "jane@x.io", "5557654321",
                                   Some(Date(2012, 1, 1)), Some(Date(1990, 1, 1)), "Tech", "Junior")

  lemma SampleEmailShape()
    ensures EmailShape(SampleData.email)
  {
    var m := SampleData.email;
    assert m[4] == '@' && m[6] == '.';
    assert PlainRange(m, 0, 4) && PlainRange(m, 5, 6) && PlainRange(m, 7, |m|);
  }

  lemma SampleEmailFree()
    ensures ToLower(SampleStored.email) != ToLower(SampleData.email)
  {
    assert ToLower(SampleStored.email)[1] != ToLower(SampleData.email)[1];
  }

  lemma SamplePhone()
    ensures PhoneShape(SampleData.phone)
    ensures NormalizePhone(SampleStored.phone) != NormalizePhone(SampleData.phone)
  {
    SampleDigits();
    DigitsNormal(SampleStored.phone);
    DigitsNormal(SampleData.phone);
    DigitsPhoneShape(SampleData.phone);
    assert SampleStored.phone[3] != SampleData.phone[3];
  }

  lemma SampleDigits()
    ensures Digits(SampleStored.phone) && Digits(SampleData.phone)
  {
  }

  lemma SampleNames()
    ensures Trim(SampleData.firstName) == SampleStored.firstName
    ensures Trim(SampleData.lastName) == SampleStored.lastName
    ensures ToLower(SampleData.firstName) != ToLower(SampleStored.firstName)
  {
    SampleFirstName();
    SampleLastName();
    assert |ToLower(SampleData.firstName)| != |ToLower(SampleStored.firstName)|;
  }

  lemma SampleFirstName()
    ensures Trim(SampleData.firstName) == SampleStored.firstName
  {
    var s := SampleData.firstName;
    assert SkipSpaces(s, 0) == 1 by {
      assert IsSpace(s[0]) && !IsSpace(s[1]);
    }
    assert SkipSpacesBack(s, 1, 5) == 5 by {
      assert !IsSpace(s[4]);
    }
    assert s[1..5] == SampleStored.firstName;
  }

  lemma SampleLastName()
    ensures Trim(SampleData.lastName) == SampleStored.lastName
  {
    var s := SampleData.lastName;
    assert !IsSpace(s[0]) && !IsSpace(s[1]) && !IsSpace(s[2]);
    TrimNoSpace(s);
  }

  /** Every check but the same-person rule passes on the sample. */
  lemma SampleOtherwiseAcceptable(es: seq<Employee>, d: EmployeeData, today: Date, duplicate: bool)
    requires es == [SampleStored] && d == SampleData && today == Date(2026, 1, 1)
    ensures Acceptable(es, d, None, today, duplicate) <==> !duplicate
  {
    SampleEmailAccepted();
    SamplePhoneAccepted();
    SampleNames();
    SampleDates();
    assert Trim(d.phone) != [] by {
      assert !IsSpace(d.phone[0]);
    }
  }

  lemma SampleEmailAccepted()
    ensures EmailShape(SampleData.email) && !EmailTaken([SampleStored], SampleData.email, None)
  {
    SampleEmailShape();
    SampleEmailFree();
  }

  lemma SamplePhoneAccepted()
    ensures PhoneShape(SampleData.phone) && !PhoneTaken([SampleStored], SampleData.phone, None)
  {
    SamplePhone();
  }

  lemma SampleDates()
    ensures !Before(Date(2026, 1, 1), SampleData.dateOfEmployment.value)
    ensures AgeAt(SampleData.dateOfBirth.value, Date(2026, 1, 1)) >= MinimumAge
    ensures Before(SampleData.dateOfBirth.value, SampleData.dateOfEmployment.value)
    ensures AgeAt(SampleData.dateOfBirth.value, SampleData.dateOfEmployment.value) >= MinimumAge
  {
  }

  /**
   * The rule as written lets a second "John Doe" born on the same day in, by
   * submitting the first name with a leading space.
   */
  lemma AsWrittenAdmitsSamePerson()
    ensures ValidationAsWritten([SampleStored], SampleData, None, Date(2026, 1, 1)).None?
  {
    SampleNames();
    assert !DuplicatePersonAsWritten([SampleStored], SampleData, None);
    SampleOtherwiseAcceptable([SampleStored], SampleData, Date(2026, 1, 1), false);
    ValidationNoneIffAcceptable([SampleStored], SampleData, None, Date(2026, 1, 1), false);
  }

  /** ... and `add` then stores it trimmed, next to the first one, breaking the invariant. */
  lemma AsWrittenBreaksUniqueness()
    ensures UniqueRecords([SampleStored])
    ensures !UniqueRecords([SampleStored] + [Build("b", SampleData)])
  {
    SampleNames();
    var both := [SampleStored] + [Build("b", SampleData)];
    assert SamePerson(both[0], both[1]);
  }

  /** The corrected rule refuses the sample. */
  lemma CorrectedRefusesSamePerson()
    ensures Validation([SampleStored], SampleData, None, Date(2026, 1, 1)).Some?
  {
    SampleNames();
    assert DuplicatePerson([SampleStored], SampleData, None) by {
      var es := [SampleStored];
      assert Considered(es[0], None);
      assert ToLower(es[0].firstName) == ToLower(Trim(SampleData.firstName));
      assert ToLower(es[0].lastName) == ToLower(Trim(SampleData.lastName));
    }
    ValidationNoneIffAcceptable([SampleStored], SampleData, None, Date(2026, 1, 1), true);
  }
}
