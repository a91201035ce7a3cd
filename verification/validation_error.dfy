/**
 * The closed set of errors a request can be rejected with, and the response body each is rendered as:
 * an upper-snake-case `code` naming the kind plus the kind's payload as a list of JSON parameters.
 */
module ValidationErrors {
  import opened Base
  import opened Text

  datatype ValidationError =
    | Unknown
    | MinLength(field: string, min: nat)
    | MaxLength(field: string, max: nat)
    | Pattern(field: string, value: string)
    | EntityNotExists(entity: string)
    | UserEmailAlreadyExists(email: string)
    | CardNumberAlreadyExists(number: string)

  /** The JSON values that occur as error parameters. */
  datatype Json = JString(text: string) | JNumber(number: nat)

  /** The error body: a code string and an optional list of optional parameters. */
  datatype ErrorBody = ErrorBody(code: string, parameters: Option<seq<Option<Json>>>)

  datatype Response = Response(status: nat, body: ErrorBody)

  const BAD_REQUEST: nat := 400

  /** The words of the variant's CamelCase name, as written in the enum declaration. */
  function VariantWords(e: ValidationError): seq<string> {
    match e
    case Unknown => ["Unknown"]
    case MinLength(_, _) => ["Min", "Length"]
    case MaxLength(_, _) => ["Max", "Length"]
    case Pattern(_, _) => ["Pattern"]
    case EntityNotExists(_) => ["Entity", "Not", "Exists"]
    case UserEmailAlreadyExists(_) => ["User", "Email", "Already", "Exists"]
    case CardNumberAlreadyExists(_) => ["Card", "Number", "Already", "Exists"]
  }

  function ToUpperAscii(c: char): char {
    if IsLowerAlpha(c) then (c as int - 'a' as int + 'A' as int) as char else c
  }

  function ToUpper(w: string): (r: string)
    ensures |r| == |w|
  {
    seq(|w|, i requires 0 <= i < |w| => ToUpperAscii(w[i]))
  }

  /** Upper snake case: the words upper-cased and joined with '_'. */
  function UpperSnake(words: seq<string>): string {
    if |words| == 0 then []
    else if |words| == 1 then ToUpper(words[0])
    else ToUpper(words[0]) + "_" + UpperSnake(words[1..])
  }

  /** The `Display` text of an error, which becomes the body's `code`. */
  function Code(e: ValidationError): string {
    UpperSnake(VariantWords(e))
  }

  /** The payload of each kind as positional JSON parameters; `Unknown` has none. */
  function Parameters(e: ValidationError): (p: Option<seq<Option<Json>>>)
    ensures p.None? <==> e.Unknown?
    ensures p.Some? ==> forall i | 0 <= i < |p.value| :: p.value[i].Some?
  {
    match e
    case Unknown => None
    case MinLength(f, m) => Some([Some(JString(f)), Some(JNumber(m))])
    case MaxLength(f, m) => Some([Some(JString(f)), Some(JNumber(m))])
    case Pattern(f, v) => Some([Some(JString(f)), Some(JString(v))])
    case EntityNotExists(n) => Some([Some(JString(n))])
    case UserEmailAlreadyExists(m) => Some([Some(JString(m))])
    case CardNumberAlreadyExists(n) => Some([Some(JString(n))])
  }

  function Body(e: ValidationError): ErrorBody {
    ErrorBody(Code(e), Parameters(e))
  }

  /** Every error kind is answered with 400 Bad Request and its body. */
  function AsResponse(e: ValidationError): (r: Response)
    ensures r.status == BAD_REQUEST
    ensures r.body.code == Code(e) && r.body.parameters == Parameters(e)
  {
    Response(BAD_REQUEST, Body(e))
  }

  lemma UpperCasedWords()
    ensures ToUpper("Unknown") == "UNKNOWN" && ToUpper("Pattern") == "PATTERN"
    ensures ToUpper("Min") == "MIN" && ToUpper("Max") == "MAX" && ToUpper("Length") == "LENGTH"
    ensures ToUpper("Entity") == "ENTITY" && ToUpper("Not") == "NOT" && ToUpper("Exists") == "EXISTS"
    ensures ToUpper("User") == "USER" && ToUpper("Email") == "EMAIL" && ToUpper("Already") == "ALREADY"
    ensures ToUpper("Card") == "CARD" && ToUpper("Number") == "NUMBER"
  {
  }

  lemma JoinedLengthWords()
    ensures "MIN" + "_" + "LENGTH" == "MIN_LENGTH" && "MAX" + "_" + "LENGTH" == "MAX_LENGTH"
  {
  }

  lemma JoinedEntityWords()
    ensures "NOT" + "_" + "EXISTS" == "NOT_EXISTS" && "ENTITY" + "_" + "NOT_EXISTS" == "ENTITY_NOT_EXISTS"
  {
  }

  lemma JoinedAlreadyExistsWords()
    ensures "ALREADY" + "_" + "EXISTS" == "ALREADY_EXISTS"
    ensures "EMAIL" + "_" + "ALREADY_EXISTS" == "EMAIL_ALREADY_EXISTS"
    ensures "USER" + "_" + "EMAIL_ALREADY_EXISTS" == "USER_EMAIL_ALREADY_EXISTS"
    ensures "NUMBER" + "_" + "ALREADY_EXISTS" == "NUMBER_ALREADY_EXISTS"
    ensures "CARD" + "_" + "NUMBER_ALREADY_EXISTS" == "CARD_NUMBER_ALREADY_EXISTS"
  {
  }

  /** Unfolds upper snake case over a word list with at least two words. */
  lemma UpperSnakeCons(w: string, rest: seq<string>)
    requires |rest| > 0
    ensures UpperSnake([w] + rest) == ToUpper(w) + "_" + UpperSnake(rest)
  {
    assert ([w] + rest)[1..] == rest;
  }

  /** The code of each kind: its CamelCase name in upper snake case. */
  lemma CodeTable(e: ValidationError)
    ensures e.Unknown? ==> Code(e) == "UNKNOWN"
    ensures e.MinLength? ==> Code(e) == "MIN_LENGTH"
    ensures e.MaxLength? ==> Code(e) == "MAX_LENGTH"
    ensures e.Pattern? ==> Code(e) == "PATTERN"
    ensures e.EntityNotExists? ==> Code(e) == "ENTITY_NOT_EXISTS"
    ensures e.UserEmailAlreadyExists? ==> Code(e) == "USER_EMAIL_ALREADY_EXISTS"
    ensures e.CardNumberAlreadyExists? ==> Code(e) == "CARD_NUMBER_ALREADY_EXISTS"
  {
    UpperCasedWords();
    match e
    case Unknown =>
    case MinLength(_, _) =>
      JoinedLengthWords();
      UpperSnakeCons("Min", ["Length"]);
    case MaxLength(_, _) =>
      JoinedLengthWords();
      UpperSnakeCons("Max", ["Length"]);
    case Pattern(_, _) =>
    case EntityNotExists(_) =>
      JoinedEntityWords();
      UpperSnakeCons("Not", ["Exists"]);
      UpperSnakeCons("Entity", ["Not", "Exists"]);
    case UserEmailAlreadyExists(_) =>
      JoinedAlreadyExistsWords();
      UpperSnakeCons("Already", ["Exists"]);
      UpperSnakeCons("Email", ["Already", "Exists"]);
      UpperSnakeCons("User", ["Email", "Already", "Exists"]);
    case CardNumberAlreadyExists(_) =>
      JoinedAlreadyExistsWords();
      UpperSnakeCons("Already", ["Exists"]);
      UpperSnakeCons("Number", ["Already", "Exists"]);
      UpperSnakeCons("Card", ["Number", "Already", "Exists"]);
  }

  /** How a client reads a body back: the code picks the kind, the parameters fill its payload. */
  function DecodeBody(b: ErrorBody): Option<ValidationError> {
    match b.parameters
    case None => if b.code == "UNKNOWN" then Some(Unknown) else None
    case Some(ps) =>
      if |ps| == 1 && ps[0].Some? && ps[0].value.JString? then
        var s := ps[0].value.text;
        if b.code == "ENTITY_NOT_EXISTS" then Some(EntityNotExists(s))
        else if b.code == "USER_EMAIL_ALREADY_EXISTS" then Some(UserEmailAlreadyExists(s))
        else if b.code == "CARD_NUMBER_ALREADY_EXISTS" then Some(CardNumberAlreadyExists(s))
        else None
      else if |ps| == 2 && ps[0].Some? && ps[0].value.JString? && ps[1].Some? then
        var f := ps[0].value.text;
        match ps[1].value
        case JNumber(m) =>
          if b.code == "MIN_LENGTH" then Some(MinLength(f, m))
          else if b.code == "MAX_LENGTH" then Some(MaxLength(f, m))
          else None
        case JString(v) =>
          if b.code == "PATTERN" then Some(Pattern(f, v)) else None
      else None
  }

  /** The body loses nothing: code and parameters together identify the error and its payload. */
  lemma BodyRoundTrip(e: ValidationError)
    ensures DecodeBody(Body(e)) == Some(e)
  {
    CodeTable(e);
  }

  /** Different kinds never share a code. */
  lemma CodeIdentifiesKind(e1: ValidationError, e2: ValidationError)
    requires VariantWords(e1) != VariantWords(e2)
    ensures Code(e1) != Code(e2)
  {
    CodeTable(e1);
    CodeTable(e2);
  }

  /** A lookup of a missing user is answered 400 with code ENTITY_NOT_EXISTS and the single parameter "User". */
  lemma MissingUserResponse()
    ensures AsResponse(EntityNotExists("User")) == Response(400, ErrorBody("ENTITY_NOT_EXISTS", Some([Some(JString("User"))])))
  {
    CodeTable(EntityNotExists("User"));
  }
}
