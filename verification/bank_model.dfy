/** Banks: the validated create payload, whose building number has bounds of its own. */
module Banks {
  import opened Base
  import opened Text
  import opened FieldRules
  import opened ValidationErrors

  /** A bank as the store returns it. */
  datatype Bank = Bank(id: Id, country: string, city: string, zipcode: string, street: string, buildingNumber: string)

  /** The create payload. */
  datatype CreateBank = CreateBank(country: string, city: string, zipcode: string, street: string, buildingNumber: string)

  /** The struct-level `field_length` bounds. */
  const FIELD_MIN: nat := 3
  const FIELD_MAX: nat := 64

  /** The `building_field_length` bounds, which replace the struct-level ones for the building number. */
  const BUILDING_MIN: nat := 1
  const BUILDING_MAX: nat := 32

  /** The string fields of the payload, in declaration order. */
  datatype Field = Country | City | Zipcode | Street | BuildingNumber

  /** The field name an error carries. */
  function FieldName(f: Field): string {
    match f
    case Country => "country"
    case City => "city"
    case Zipcode => "zipcode"
    case Street => "street"
    case BuildingNumber => "buildingNumber"
  }

  function FieldOf(c: CreateBank, f: Field): string {
    match f
    case Country => c.country
    case City => c.city
    case Zipcode => c.zipcode
    case Street => c.street
    case BuildingNumber => c.buildingNumber
  }

  function MinOf(f: Field): nat {
    if f == BuildingNumber then BUILDING_MIN else FIELD_MIN
  }

  function MaxOf(f: Field): nat {
    if f == BuildingNumber then BUILDING_MAX else FIELD_MAX
  }

  /** The struct-level `trim`: every field trimmed. */
  function Trimmed(c: CreateBank): CreateBank {
    CreateBank(Trim(c.country), Trim(c.city), Trim(c.zipcode), Trim(c.street), Trim(c.buildingNumber))
  }

  /** The rule a field declares, applied to its value in `c`; no bank field declares a pattern. */
  function RuleFor(c: CreateBank, f: Field): Rule {
    Rule(FieldName(f), FieldOf(c, f), MinOf(f), MaxOf(f), None)
  }

  /** The declared rules in declaration order. */
  function Rules(c: CreateBank): seq<Rule> {
    [RuleFor(c, Country), RuleFor(c, City), RuleFor(c, Zipcode), RuleFor(c, Street), RuleFor(c, BuildingNumber)]
  }

  predicate InFieldLength(s: string) {
    FIELD_MIN <= |s| <= FIELD_MAX
  }

  predicate InBuildingLength(s: string) {
    BUILDING_MIN <= |s| <= BUILDING_MAX
  }

  /** What a valid (trimmed) payload looks like: four fields of 3 to 64 characters and a building number of 1 to 32. */
  ghost predicate Acceptable(c: CreateBank) {
    && InFieldLength(c.country) && InFieldLength(c.city) && InFieldLength(c.zipcode) && InFieldLength(c.street)
    && InBuildingLength(c.buildingNumber)
  }

  /** `e` names a field of `c` and a requirement that field's value breaks. */
  ghost predicate Blames(e: ValidationError, c: CreateBank) {
    exists f: Field :: Reports(e, RuleFor(c, f))
  }

  lemma RulesHoldIffAcceptable(c: CreateBank)
    ensures (forall i | 0 <= i < |Rules(c)| :: Holds(Rules(c)[i])) <==> Acceptable(c)
  {
    assert Holds(Rules(c)[0]) && Holds(Rules(c)[1]) && Holds(Rules(c)[2]) && Holds(Rules(c)[3]) && Holds(Rules(c)[4])
      <==> Acceptable(c);
  }

  lemma ReportedErrorBlames(c: CreateBank)
    requires CheckAll(Rules(c)).Some?
    ensures Blames(CheckAll(Rules(c)).value, c)
  {
    var e := CheckAll(Rules(c)).value;
    var i :| 0 <= i < |Rules(c)| && Reports(e, Rules(c)[i]);
    var f := if i == 0 then Country else if i == 1 then City else if i == 2 then Zipcode else if i == 3 then Street else BuildingNumber;
    assert Reports(e, RuleFor(c, f));
  }

  /**
   * Validation trims the payload, then accepts it exactly when every field's trimmed length is within
   * its bounds; an error names a field whose trimmed value breaks its bounds.
   */
  function Validate(c: CreateBank): (r: Result<CreateBank, ValidationError>)
    ensures r.Ok? <==> Acceptable(Trimmed(c))
    ensures r.Ok? ==> r.value == Trimmed(c)
    ensures r.Err? ==> Blames(r.error, Trimmed(c))
  {
    var t := Trimmed(c);
    RulesHoldIffAcceptable(t);
    var check := CheckAll(Rules(t));
    if check.None? then Ok(t)
    else
      ReportedErrorBlames(t);
      Err(check.value)
  }

  /** With no pattern declared, every bank error is a length error. */
  lemma OnlyLengthErrors(c: CreateBank)
    requires Validate(c).Err?
    ensures Validate(c).error.MinLength? || Validate(c).error.MaxLength?
  {
    var t := Trimmed(c);
    var f :| Reports(Validate(c).error, RuleFor(t, f));
  }

  /** When only an over-long building number is at fault, the error blamed on the payload is its maximum-length error. */
  lemma OnlyLongBuildingNumberBlamed(t: CreateBank, e: ValidationError)
    requires Blames(e, t)
    requires |t.buildingNumber| > BUILDING_MAX
    requires InFieldLength(t.country) && InFieldLength(t.city) && InFieldLength(t.zipcode) && InFieldLength(t.street)
    ensures e == MaxLength("buildingNumber", 32)
  {
    var f :| Reports(e, RuleFor(t, f));
  }

  /** A one-character building number is accepted, although one character is too short for the other fields. */
  lemma OneCharacterBuildingNumberAccepted(c: CreateBank)
    requires |Trim(c.buildingNumber)| == 1
    requires InFieldLength(Trim(c.country)) && InFieldLength(Trim(c.city))
    requires InFieldLength(Trim(c.zipcode)) && InFieldLength(Trim(c.street))
    ensures Validate(c).Ok?
    ensures !InFieldLength(Trim(c.buildingNumber))
  {
  }

  /** A building number over 32 characters is rejected with the building number's own maximum, 32. */
  lemma LongBuildingNumberRejected(c: CreateBank)
    requires |Trim(c.buildingNumber)| > BUILDING_MAX
    requires InFieldLength(Trim(c.country)) && InFieldLength(Trim(c.city))
    requires InFieldLength(Trim(c.zipcode)) && InFieldLength(Trim(c.street))
    ensures Validate(c) == Err(MaxLength("buildingNumber", 32))
  {
    OnlyLongBuildingNumberBlamed(Trimmed(c), Validate(c).error);
  }

  /** A city under three characters is rejected, whatever the other fields hold. */
  lemma ShortCityRejected(c: CreateBank)
    requires |Trim(c.city)| < FIELD_MIN
    ensures Validate(c).Err?
  {
  }
}
