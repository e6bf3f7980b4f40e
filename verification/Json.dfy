/** The values cJSON trees denote, and what a parser may return. */
module Json {
  import opened Bytes

  const INT_MAX := 0x7FFF_FFFF
  const INT_MIN := -0x8000_0000
  /** CJSON_NESTING_LIMIT */
  const NESTING_LIMIT: nat := 1000

  /** A number item keeps the double and its saturated int side by side, as the C struct does. */
  datatype Json =
    | Null
    | False
    | True
    | Number(valuedouble: real, valueint: int)
    | String(text: seq<byte>)
    | Array(items: seq<Json>)
    | Object(members: seq<Member>)

  datatype Member = Member(key: seq<byte>, value: Json)

  /** Outcome of a parsing function: the value and what is left to read, or the place of the error. */
  datatype Parse<T> = Ok(value: T, rest: seq<byte>) | Fail(rest: seq<byte>)

  function Int(n: int): Json { Number(n as real, n) }

  /** A number printed with "%d": the double equals the int, which is an int32. */
  predicate IsInt32(j: Json) {
    j.Number? && INT_MIN <= j.valueint <= INT_MAX && j.valuedouble == j.valueint as real
  }

  // ---------------------------------------------------------------- the trees in scope

  /** Numbers are int32; strings and keys are C strings. */
  ghost predicate WellFormed(j: Json) {
    match j
    case Number(_, _) => IsInt32(j)
    case String(text) => NulFree(text)
    case Array(items) => AllWellFormed(items)
    case Object(members) => AllMembersWellFormed(members)
    case _ => true
  }

  ghost predicate AllWellFormed(items: seq<Json>) {
    items == [] || (WellFormed(items[0]) && AllWellFormed(items[1..]))
  }

  ghost predicate AllMembersWellFormed(members: seq<Member>) {
    members == [] ||
    (NulFree(members[0].key) && WellFormed(members[0].value) && AllMembersWellFormed(members[1..]))
  }

  // ---------------------------------------------------------------- container nesting

  function Max(a: nat, b: nat): nat { if a > b then a else b }

  /** How many arrays and objects are open at the deepest place. */
  function Nesting(j: Json): nat {
    match j
    case Array(items) => 1 + MaxNesting(items)
    case Object(members) => 1 + MaxMemberNesting(members)
    case _ => 0
  }

  function MaxNesting(items: seq<Json>): nat {
    if items == [] then 0 else Max(Nesting(items[0]), MaxNesting(items[1..]))
  }

  function MaxMemberNesting(members: seq<Member>): nat {
    if members == [] then 0 else Max(Nesting(members[0].value), MaxMemberNesting(members[1..]))
  }
}
