/** The error kinds the validators raise (each a Python ValueError) and the
    two field rules every validator repeats: a required, length-limited
    string and a positive integer key. */
module FieldRules {
  import opened Wrappers
  import opened Text

  datatype Field = Name | CountryExtId | ExtKeyClockId | AppId | UserId | WsExtId

  /** One constructor per distinct `raise ValueError(...)` in the validators
      and services; duplicates carry the key the message names. */
  datatype ValueError =
    | Required(field: Field)                          // "The '<field>' field is required and cannot be empty."
    | TooLong(field: Field, limit: nat)               // "... cannot exceed <limit> characters"
    | NotPositive(field: Field)                       // "... ID must be a positive integer"
    | NotAnObject                                     // "Notification must be a valid JSON object"
    | EmptyNotification                               // "Notification cannot be empty"
    | DuplicateApp(name: string, countryExtId: string)
    | DuplicateUser(extKeyClockId: string, appId: int)
    | DuplicateInterest(userId: int, wsExtId: string)
    | InvalidProfileType(token: string)               // "Invalid profile type: <token>. Valid options are: [...]"

  type Check = Outcome<ValueError>

  /** A field that passes RequiredString: not blank and within the limit. */
  ghost predicate Acceptable(s: string, limit: nat) {
    !Blank(s) && |s| <= limit
  }

  /** A required string: an empty or all-whitespace value is refused as
      missing before its length is compared with the limit. */
  function RequiredString(s: string, field: Field, limit: nat): (r: Check)
    ensures r == Fail(Required(field)) <==> Blank(s)
    ensures r == Fail(TooLong(field, limit)) <==> !Blank(s) && |s| > limit
    ensures r == Pass <==> Acceptable(s, limit)
  {
    StripEmptyIffBlank(s);
    if s == [] || Strip(s) == [] then Fail(Required(field))
    else if |s| > limit then Fail(TooLong(field, limit))
    else Pass
  }

  /** A foreign key must be a positive integer. */
  function PositiveId(n: int, field: Field): (r: Check)
    ensures r == Pass <==> n > 0
    ensures r.Fail? ==> r.error == NotPositive(field)
  {
    if n <= 0 then Fail(NotPositive(field)) else Pass
  }
}
