/**
 * The interpreter for the per-field rules a create payload declares: each string field, already
 * trimmed, must have a length within its bounds and, where one is declared, match its pattern.
 * The model checks the rules in declaration order, but its contract does not depend on that order:
 * it promises only that no error means every rule holds, and that an error is one some violated
 * rule reports.
 */
module FieldRules {
  import opened Base
  import opened Patterns
  import opened ValidationErrors

  /** The patterns a field can declare. */
  datatype PatternRule = CardNumberPattern | ExpirationPattern | EmailPattern

  predicate Matches(p: PatternRule, s: string) {
    match p
    case CardNumberPattern => CardNumberMatches(s)
    case ExpirationPattern => ExpirationMatches(s)
    case EmailPattern => EmailMatches(s)
  }

  /** A declared field: its name, its (trimmed) value, its length bounds and its optional pattern. */
  datatype Rule = Rule(field: string, value: string, min: nat, max: nat, pattern: Option<PatternRule>)

  predicate Holds(r: Rule) {
    && r.min <= |r.value| <= r.max
    && (r.pattern.Some? ==> Matches(r.pattern.value, r.value))
  }

  /** `e` is an error the rule `r` can raise: it names `r`'s field and the requirement its value breaks. */
  ghost predicate Reports(e: ValidationError, r: Rule) {
    match e
    case MinLength(f, m) => f == r.field && m == r.min && |r.value| < r.min
    case MaxLength(f, m) => f == r.field && m == r.max && |r.value| > r.max
    case Pattern(f, v) => f == r.field && v == r.value && r.pattern.Some? && !Matches(r.pattern.value, r.value)
    case _ => false
  }

  /** A rule that reports an error does not hold, so an error is never raised for a valid field. */
  lemma ReportsOnlyViolations(e: ValidationError, r: Rule)
    requires Reports(e, r)
    ensures !Holds(r)
  {
  }

  /** Checks one field: nothing when it satisfies its rules, otherwise an error naming it. */
  function CheckRule(r: Rule): (res: Option<ValidationError>)
    ensures res.None? <==> Holds(r)
    ensures res.Some? ==> Reports(res.value, r)
  {
    if |r.value| < r.min then Some(MinLength(r.field, r.min))
    else if |r.value| > r.max then Some(MaxLength(r.field, r.max))
    else if r.pattern.Some? && !Matches(r.pattern.value, r.value) then Some(Pattern(r.field, r.value))
    else None
  }

  /** Checks every declared field: nothing exactly when every rule holds, otherwise an error some violated rule reports. */
  function CheckAll(rules: seq<Rule>): (res: Option<ValidationError>)
    ensures res.None? <==> forall i | 0 <= i < |rules| :: Holds(rules[i])
    ensures res.Some? ==> exists i | 0 <= i < |rules| :: Reports(res.value, rules[i])
  {
    if |rules| == 0 then None
    else
      match CheckRule(rules[0])
      case Some(e) => Some(e)
      case None =>
        var rest := CheckAll(rules[1..]);
        assert forall i | 1 <= i < |rules| :: rules[i] == rules[1..][i - 1];
        rest
  }

  /** Only the value of a field matters to its rules, not its position among the others. */
  lemma {:induction false} CheckAllIgnoresOrder(rules: seq<Rule>, other: seq<Rule>)
    requires multiset(rules) == multiset(other)
    ensures CheckAll(rules).None? <==> CheckAll(other).None?
  {
    forall i | 0 <= i < |rules| ensures rules[i] in multiset(other) {
      assert rules[i] in multiset(rules);
    }
    forall i | 0 <= i < |other| ensures other[i] in multiset(rules) {
      assert other[i] in multiset(other);
    }
  }
}
