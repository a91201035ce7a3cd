/** Cards: the card-type enumeration with its lenient decoding, and the validated create payload. */
module Cards {
  import opened Base
  import opened Text
  import opened Patterns
  import opened FieldRules
  import opened ValidationErrors

  datatype CardType = Visa | VisaRetired | MasterCard | DiscoverCard | AmericanExpress

  /** The `u32` each variant is stored as (its `repr(u32)` discriminant). */
  function Discriminant(t: CardType): u32 {
    match t
    case Visa => 1
    case VisaRetired => 2
    case MasterCard => 3
    case DiscoverCard => 4
    case AmericanExpress => 5
  }

  /** Decoding a stored `u32`: a known discriminant gives its variant, anything else falls back to `Visa`. */
  function FromU32(v: u32): (t: CardType)
    ensures 1 <= v <= 5 ==> Discriminant(t) == v
    ensures !(1 <= v <= 5) ==> t == Visa
  {
    match v
    case 2 => VisaRetired
    case 3 => MasterCard
    case 4 => DiscoverCard
    case 5 => AmericanExpress
    case _ => Visa
  }

  /** Storing a card type and reading it back gives the same card type. */
  lemma DecodeEncode(t: CardType)
    ensures FromU32(Discriminant(t)) == t
  {
  }

  /** The discriminants in order, and the fallback for codes no variant has. */
  lemma DecodeTable()
    ensures FromU32(1) == Visa && FromU32(2) == VisaRetired && FromU32(3) == MasterCard
    ensures FromU32(4) == DiscoverCard && FromU32(5) == AmericanExpress
    ensures FromU32(0) == Visa && FromU32(6) == Visa && FromU32(99) == Visa
  {
  }

  /** A card as the store returns it. */
  datatype Card = Card(id: Id, cardType: CardType, number: string, expiration: string, owner: string)

  /** The create payload. */
  datatype CreateCard = CreateCard(cardType: CardType, number: string, expiration: string, owner: string)

  /** The struct-level `field_length` bounds, applied to every string field. */
  const FIELD_MIN: nat := 3
  const FIELD_MAX: nat := 64

  /** The string fields of the payload, in declaration order. */
  datatype Field = Number | Expiration | Owner

  /** The field name an error carries. */
  function FieldName(f: Field): string {
    match f
    case Number => "number"
    case Expiration => "expiration"
    case Owner => "owner"
  }

  function FieldOf(c: CreateCard, f: Field): string {
    match f
    case Number => c.number
    case Expiration => c.expiration
    case Owner => c.owner
  }

  /** The `pattern` each field declares, if any. */
  function FieldPattern(f: Field): Option<PatternRule> {
    match f
    case Number => Some(CardNumberPattern)
    case Expiration => Some(ExpirationPattern)
    case Owner => None
  }

  /** The struct-level `trim`: every string field trimmed, the card type untouched. */
  function Trimmed(c: CreateCard): CreateCard {
    CreateCard(c.cardType, Trim(c.number), Trim(c.expiration), Trim(c.owner))
  }

  /** The rule a field declares, applied to its value in `c`. */
  function RuleFor(c: CreateCard, f: Field): Rule {
    Rule(FieldName(f), FieldOf(c, f), FIELD_MIN, FIELD_MAX, FieldPattern(f))
  }

  /** The declared rules in declaration order. */
  function Rules(c: CreateCard): seq<Rule> {
    [RuleFor(c, Number), RuleFor(c, Expiration), RuleFor(c, Owner)]
  }

  predicate InFieldLength(s: string) {
    FIELD_MIN <= |s| <= FIELD_MAX
  }

  /** What a valid (trimmed) payload looks like, stated without the rule list. */
  ghost predicate Acceptable(c: CreateCard) {
    && InFieldLength(c.number) && AllDigits(c.number)
    && InFieldLength(c.expiration) && IsExpiration(c.expiration)
    && InFieldLength(c.owner)
  }

  /** `e` names a field of `c` and a requirement that field's value breaks. */
  ghost predicate Blames(e: ValidationError, c: CreateCard) {
    exists f: Field :: Reports(e, RuleFor(c, f))
  }

  /** What each field requires of its value, stated without the rule list. */
  ghost predicate FieldAcceptable(c: CreateCard, f: Field) {
    && InFieldLength(FieldOf(c, f))
    && match f
       case Number => AllDigits(c.number)
       case Expiration => IsExpiration(c.expiration)
       case Owner => true
  }

  lemma RuleHoldsIffFieldAcceptable(c: CreateCard, f: Field)
    ensures Holds(RuleFor(c, f)) <==> FieldAcceptable(c, f)
  {
    match f
    case Number => CardNumberIffDigits(c.number);
    case Expiration => ExpirationIffMonthAndYear(c.expiration);
    case Owner =>
  }

  lemma RulesHoldIffAcceptable(c: CreateCard)
    ensures (forall i | 0 <= i < |Rules(c)| :: Holds(Rules(c)[i])) <==> Acceptable(c)
  {
    RuleHoldsIffFieldAcceptable(c, Number);
    RuleHoldsIffFieldAcceptable(c, Expiration);
    RuleHoldsIffFieldAcceptable(c, Owner);
    assert Holds(Rules(c)[0]) && Holds(Rules(c)[1]) && Holds(Rules(c)[2]) <==> Acceptable(c);
  }

  lemma ReportedErrorBlames(c: CreateCard)
    requires CheckAll(Rules(c)).Some?
    ensures Blames(CheckAll(Rules(c)).value, c)
  {
    var e := CheckAll(Rules(c)).value;
    var i :| 0 <= i < |Rules(c)| && Reports(e, Rules(c)[i]);
    var f := if i == 0 then Number else if i == 1 then Expiration else Owner;
    assert Reports(e, RuleFor(c, f));
  }

  /**
   * Validation trims the payload, then accepts it exactly when every declared length and pattern
   * rule holds of the trimmed fields; an error names a field whose trimmed value breaks a rule.
   */
  function Validate(c: CreateCard): (r: Result<CreateCard, ValidationError>)
    ensures r.Ok? <==> Acceptable(Trimmed(c))
    ensures r.Ok? ==> r.value == Trimmed(c)
    ensures r.Err? ==> Blames(r.error, Trimmed(c))
  {
    var t := Trimmed(c);
    RulesHoldIffAcceptable(t);
    var check := CheckAll(Rules(t));
    if check.None? then Ok(t)
    else
      ReportedErrorBlames(t);
      Err(check.value)
  }

  /** The card type takes no part in validation. */
  lemma CardTypeNotValidated(c: CreateCard, t: CardType)
    ensures Validate(c.(cardType := t)).Ok? == Validate(c).Ok?
  {
  }

  /** The empty number matches the digits-only pattern but is too short. */
  lemma EmptyNumberRejectedByLength(c: CreateCard)
    requires Trim(c.number) == []
    ensures CardNumberMatches(Trim(c.number))
    ensures Validate(c).Err?
  {
  }

  /** When only the number can be at fault, the error blamed on a payload is the number's pattern error. */
  lemma OnlyNumberBlamed(t: CreateCard, e: ValidationError)
    requires Blames(e, t)
    requires InFieldLength(t.number) && FieldAcceptable(t, Expiration) && FieldAcceptable(t, Owner)
    ensures e == Pattern("number", t.number)
  {
    var f :| Reports(e, RuleFor(t, f));
    ReportsOnlyViolations(e, RuleFor(t, f));
    RuleHoldsIffFieldAcceptable(t, f);
  }

  /**
   * When the number is the only field that breaks a rule, and it breaks only its pattern, the error
   * is the pattern error for the number with its trimmed value, whatever order the rules run in.
   */
  lemma OnlyNumberPatternBroken(c: CreateCard)
    requires InFieldLength(Trim(c.number)) && !AllDigits(Trim(c.number))
    requires InFieldLength(Trim(c.expiration)) && IsExpiration(Trim(c.expiration))
    requires InFieldLength(Trim(c.owner))
    ensures Validate(c) == Err(Pattern("number", Trim(c.number)))
  {
    var t := Trimmed(c);
    assert !Acceptable(t);
    OnlyNumberBlamed(t, Validate(c).error);
  }

  // The three sample lemmas below only split the proof of `NumberWithLetterRejected`, which is too
  // large for the solver in one piece: each settles the facts about one field of that example.

  /** The sample number below is already trimmed and of valid length, but holds a letter. */
  lemma SampleNumber(number: string)
    requires number == "12a3"
    ensures Trim(number) == number && InFieldLength(number) && !AllDigits(number)
  {
    assert !AllDigits(number) by { assert number[2] == 'a'; }
    TrimKeepsTrimmed(number);
  }

  /** The sample expiration below is already trimmed and acceptable. */
  lemma SampleExpiration(expiration: string)
    requires expiration == "12/25"
    ensures Trim(expiration) == expiration && InFieldLength(expiration) && IsExpiration(expiration)
  {
    assert IsExpiration(expiration) by {
      assert TwoDigitValue(expiration[0], expiration[1]) == 12;
      assert expiration[2] == '/' && expiration[3..] == "25";
    }
    TrimKeepsTrimmed(expiration);
  }

  /** The sample owner below is already trimmed and of valid length. */
  lemma SampleOwner(owner: string)
    requires owner == "Ann"
    ensures Trim(owner) == owner && InFieldLength(owner)
  {
    TrimKeepsTrimmed(owner);
  }

  /** A number containing a letter is rejected with a pattern error carrying the offending value. */
  lemma NumberWithLetterRejected(c: CreateCard)
    requires c == CreateCard(Visa, "12a3", "12/25", "Ann")
    ensures Validate(c) == Err(Pattern("number", "12a3"))
  {
    SampleNumber(c.number);
    SampleExpiration(c.expiration);
    SampleOwner(c.owner);
    OnlyNumberPatternBroken(c);
  }
}
