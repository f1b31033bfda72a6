/** The user profile enumeration. Its Python module is not part of this
    model; the members are the two the tests use, and each member's value is
    its own name. */
module ProfileTypes {
  import opened Wrappers

  datatype ProfileType = Farmer | Technician

  /** The enum member's string value. */
  function Value(p: ProfileType): string {
    match p
    case Farmer => "FARMER"
    case Technician => "TECHNICIAN"
  }

  /** `ProfileType(token)`: lookup by value, None where Python raises. */
  function Parse(token: string): (r: Option<ProfileType>)
    ensures r.Some? <==> exists p :: Value(p) == token
    ensures r.Some? ==> Value(r.value) == token
  {
    if token == Value(Farmer) then Some(Farmer)
    else if token == Value(Technician) then Some(Technician)
    else None
  }

  /** Parsing inverts Value, so every member can be reached from a string. */
  lemma ParseValue(p: ProfileType)
    ensures Parse(Value(p)) == Some(p)
  {
  }
}
