/** Users: the user-type enumeration with its lenient decoding, and the validated create payload. */
module Users {
  import opened Base
  import opened Text
  import opened Patterns
  import opened FieldRules
  import opened ValidationErrors

  datatype UserType = Worker | Manager | Customer

  /** The `u32` each variant is stored as (its `repr(u32)` discriminant). */
  function Discriminant(t: UserType): u32 {
    match t
    case Worker => 1
    case Manager => 2
    case Customer => 3
  }

  /** Decoding a stored `u32`: a known discriminant gives its variant, anything else falls back to `Worker`. */
  function FromU32(v: u32): (t: UserType)
    ensures 1 <= v <= 3 ==> Discriminant(t) == v
    ensures !(1 <= v <= 3) ==> t == Worker
  {
    match v
    case 2 => Manager
    case 3 => Customer
    case _ => Worker
  }

  /** Storing a user type and reading it back gives the same user type. */
  lemma DecodeEncode(t: UserType)
    ensures FromU32(Discriminant(t)) == t
  {
  }

  /** The discriminants in order, and the fallback for codes no variant has. */
  lemma DecodeTable()
    ensures FromU32(1) == Worker && FromU32(2) == Manager && FromU32(3) == Customer
    ensures FromU32(0) == Worker && FromU32(4) == Worker && FromU32(99) == Worker
  {
  }

  /** A calendar date (chrono's `NaiveDate`); the model never computes with dates, it only stores them. */
  datatype Date = Date(year: int, month: nat, day: nat)

  /** `NaiveDate::default()`: the Unix epoch, 1970-01-01. */
  const DEFAULT_DATE: Date := Date(1970, 1, 1)

  /** A user as the store returns it. */
  datatype User = User(id: Id, firstName: string, lastName: string, email: string, phone: string, birthday: Date, userType: UserType)

  /** The create payload. */
  datatype CreateUser = CreateUser(firstName: string, lastName: string, email: string, phone: string, birthday: Date, userType: UserType)

  /** Reading a payload whose birthday may be omitted: an omitted birthday becomes the default date. */
  function FromRequest(firstName: string, lastName: string, email: string, phone: string, birthday: Option<Date>, userType: UserType): (c: CreateUser)
    ensures birthday.Some? ==> c.birthday == birthday.value
    ensures birthday.None? ==> c.birthday == DEFAULT_DATE
    ensures c.firstName == firstName && c.lastName == lastName && c.email == email && c.phone == phone && c.userType == userType
  {
    CreateUser(firstName, lastName, email, phone, if birthday.Some? then birthday.value else DEFAULT_DATE, userType)
  }

  /** The struct-level `field_length` bounds, applied to every string field. */
  const FIELD_MIN: nat := 3
  const FIELD_MAX: nat := 64

  /** The string fields of the payload, in declaration order. */
  datatype Field = FirstName | LastName | Email | Phone

  /** The field name an error carries. */
  function FieldName(f: Field): string {
    match f
    case FirstName => "firstName"
    case LastName => "lastName"
    case Email => "email"
    case Phone => "phone"
  }

  function FieldOf(c: CreateUser, f: Field): string {
    match f
    case FirstName => c.firstName
    case LastName => c.lastName
    case Email => c.email
    case Phone => c.phone
  }

  /** The `pattern` each field declares, if any: only the email has one. */
  function FieldPattern(f: Field): Option<PatternRule> {
    if f == Email then Some(EmailPattern) else None
  }

  /** The struct-level `trim`: every string field trimmed, the birthday and user type untouched. */
  function Trimmed(c: CreateUser): CreateUser {
    c.(firstName := Trim(c.firstName), lastName := Trim(c.lastName), email := Trim(c.email), phone := Trim(c.phone))
  }

  /** The rule a field declares, applied to its value in `c`. */
  function RuleFor(c: CreateUser, f: Field): Rule {
    Rule(FieldName(f), FieldOf(c, f), FIELD_MIN, FIELD_MAX, FieldPattern(f))
  }

  /** The declared rules in declaration order. */
  function Rules(c: CreateUser): seq<Rule> {
    [RuleFor(c, FirstName), RuleFor(c, LastName), RuleFor(c, Email), RuleFor(c, Phone)]
  }

  predicate InFieldLength(s: string) {
    FIELD_MIN <= |s| <= FIELD_MAX
  }

  /**
   * What a valid (trimmed) payload looks like, stated without the rule list: every string field has
   * 3 to 64 characters, and the email starts with an address split at its first '@'.
   */
  ghost predicate Acceptable(c: CreateUser) {
    && InFieldLength(c.firstName) && InFieldLength(c.lastName)
    && InFieldLength(c.email) && IsEmailPrefix(c.email)
    && InFieldLength(c.phone)
  }

  /** `e` names a field of `c` and a requirement that field's value breaks. */
  ghost predicate Blames(e: ValidationError, c: CreateUser) {
    exists f: Field :: Reports(e, RuleFor(c, f))
  }

  /** What each field requires of its value, stated without the rule list. */
  ghost predicate FieldAcceptable(c: CreateUser, f: Field) {
    InFieldLength(FieldOf(c, f)) && (f == Email ==> IsEmailPrefix(c.email))
  }

  lemma RuleHoldsIffFieldAcceptable(c: CreateUser, f: Field)
    ensures Holds(RuleFor(c, f)) <==> FieldAcceptable(c, f)
  {
    if f == Email {
      EmailIffFirstAtSplit(c.email);
    }
  }

  lemma RulesHoldIffAcceptable(c: CreateUser)
    ensures (forall i | 0 <= i < |Rules(c)| :: Holds(Rules(c)[i])) <==> Acceptable(c)
  {
    RuleHoldsIffFieldAcceptable(c, FirstName);
    RuleHoldsIffFieldAcceptable(c, LastName);
    RuleHoldsIffFieldAcceptable(c, Email);
    RuleHoldsIffFieldAcceptable(c, Phone);
    assert Holds(Rules(c)[0]) && Holds(Rules(c)[1]) && Holds(Rules(c)[2]) && Holds(Rules(c)[3]) <==> Acceptable(c);
  }

  lemma ReportedErrorBlames(c: CreateUser)
    requires CheckAll(Rules(c)).Some?
    ensures Blames(CheckAll(Rules(c)).value, c)
  {
    var e := CheckAll(Rules(c)).value;
    var i :| 0 <= i < |Rules(c)| && Reports(e, Rules(c)[i]);
    var f := if i == 0 then FirstName else if i == 1 then LastName else if i == 2 then Email else Phone;
    assert Reports(e, RuleFor(c, f));
  }

  /**
   * Validation trims the payload, then accepts it exactly when every declared length and pattern
   * rule holds of the trimmed fields; an error names a field whose trimmed value breaks a rule.
   */
  function Validate(c: CreateUser): (r: Result<CreateUser, ValidationError>)
    ensures r.Ok? <==> Acceptable(Trimmed(c))
    ensures r.Ok? ==> r.value == Trimmed(c)
    ensures r.Err? ==> Blames(r.error, Trimmed(c))
  {
    var t := Trimmed(c);
    RulesHoldIffAcceptable(t);
    var check := CheckAll(Rules(t));
    if check.None? then Ok(t)
    else
      ReportedErrorBlames(t);
      Err(check.value)
  }

  /** Neither the birthday nor the user type takes part in validation, and both pass through unchanged. */
  lemma BirthdayAndTypeNotValidated(c: CreateUser, b: Date, t: UserType)
    ensures Validate(c.(birthday := b, userType := t)).Ok? == Validate(c).Ok?
    ensures Validate(c).Ok? ==> Validate(c).value.birthday == c.birthday && Validate(c).value.userType == c.userType
  {
  }

  /**
   * When only the email can be at fault and it is not an address, any outcome that rejects exactly the
   * unacceptable payloads and blames a field it rejects is the email's pattern error.
   */
  lemma OnlyEmailBlamed(t: CreateUser, r: Result<CreateUser, ValidationError>)
    requires r.Ok? <==> Acceptable(t)
    requires r.Err? ==> Blames(r.error, t)
    requires InFieldLength(t.email) && !IsEmailPrefix(t.email)
    requires FieldAcceptable(t, FirstName) && FieldAcceptable(t, LastName) && FieldAcceptable(t, Phone)
    ensures r == Err(Pattern("email", t.email))
  {
    var f :| Reports(r.error, RuleFor(t, f));
    ReportsOnlyViolations(r.error, RuleFor(t, f));
    RuleHoldsIffFieldAcceptable(t, f);
  }

  lemma LeadingCapitalNotAddress(s: string)
    requires |s| > 0 && (IsUpperAlpha(s[0]) || s[0] == '.')
    ensures !IsEmailPrefix(s)
  {
    EmailRejectsLeadingUpperOrDot(s);
    EmailIffFirstAtSplit(s);
  }

  lemma NamesAndPhoneAcceptable(c: CreateUser)
    requires InFieldLength(Trim(c.firstName)) && InFieldLength(Trim(c.lastName)) && InFieldLength(Trim(c.phone))
    ensures FieldAcceptable(Trimmed(c), FirstName) && FieldAcceptable(Trimmed(c), LastName) && FieldAcceptable(Trimmed(c), Phone)
  {
  }

  /**
   * An email that, once trimmed, has a valid length but starts with an upper-case letter or a dot is
   * rejected with the email's pattern error, whatever order the rules run in, when the other fields
   * are valid.
   */
  lemma CapitalisedEmailRejected(c: CreateUser)
    requires InFieldLength(Trim(c.email))
    requires IsUpperAlpha(Trim(c.email)[0]) || Trim(c.email)[0] == '.'
    requires InFieldLength(Trim(c.firstName)) && InFieldLength(Trim(c.lastName)) && InFieldLength(Trim(c.phone))
    ensures Validate(c) == Err(Pattern("email", Trim(c.email)))
  {
    LeadingCapitalNotAddress(Trim(c.email));
    NamesAndPhoneAcceptable(c);
    OnlyEmailBlamed(Trimmed(c), Validate(c));
  }

  /**
   * When only a too-short first name can be at fault, any outcome that rejects exactly the
   * unacceptable payloads and blames a field it rejects is the first name's minimum-length error.
   */
  lemma OnlyShortFirstNameBlamed(t: CreateUser, r: Result<CreateUser, ValidationError>)
    requires r.Ok? <==> Acceptable(t)
    requires r.Err? ==> Blames(r.error, t)
    requires |t.firstName| < FIELD_MIN
    requires FieldAcceptable(t, LastName) && FieldAcceptable(t, Email) && FieldAcceptable(t, Phone)
    ensures r == Err(MinLength("firstName", 3))
  {
    var f :| Reports(r.error, RuleFor(t, f));
    ReportsOnlyViolations(r.error, RuleFor(t, f));
    RuleHoldsIffFieldAcceptable(t, f);
  }

  /**
   * A first name under three characters once trimmed, with the other fields valid, is rejected with
   * the first name's minimum-length error, whatever order the rules run in.
   */
  lemma ShortFirstNameRejected(c: CreateUser)
    requires |Trim(c.firstName)| < FIELD_MIN
    requires InFieldLength(Trim(c.lastName)) && InFieldLength(Trim(c.phone))
    requires InFieldLength(Trim(c.email)) && IsEmailPrefix(Trim(c.email))
    ensures Validate(c) == Err(MinLength("firstName", 3))
  {
    OnlyShortFirstNameBlamed(Trimmed(c), Validate(c));
  }

  /** The first name "Al" is rejected with `MinLength("firstName", 3)` when the rest of the payload is valid. */
  lemma FirstNameAlRejected(c: CreateUser)
    requires c == CreateUser("Al", "Smith", "john.doe@example.com", "5551234", DEFAULT_DATE, Worker)
    ensures Validate(c) == Err(MinLength("firstName", 3))
  {
    assert |Trim(c.firstName)| < FIELD_MIN;
    assert Trim(c.lastName) == c.lastName by { TrimKeepsTrimmed(c.lastName); }
    assert Trim(c.phone) == c.phone by { TrimKeepsTrimmed(c.phone); }
    assert Trim(c.email) == c.email by { TrimKeepsTrimmed(c.email); }
    assert IsEmailPrefix(c.email) by {
      EmailAcceptsPlainAddress();
      EmailIffFirstAtSplit(c.email);
    }
    ShortFirstNameRejected(c);
  }

  /** Surrounding whitespace is trimmed before the length rule, so padding cannot lengthen a short name. */
  lemma PaddedShortNameRejected(c: CreateUser)
    requires |Trim(c.firstName)| < FIELD_MIN
    ensures Validate(c).Err?
  {
  }
}
