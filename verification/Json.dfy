/** JSON values, the abstract value of a cJSON tree. */
module Json {
  import opened Bytes

  /** An object member: `string` is the name, the rest of the node is the value. */
  datatype Member = Member(name: bytes, value: Json)

  datatype Json =
    | Null
    | False
    | True
    | Number(value: real)
    | String(str: bytes)
    | Array(items: seq<Json>)
    | Object(members: seq<Member>)

  const INT_MIN: int := -0x8000_0000
  const INT_MAX: int := 0x7fff_ffff

  /** The numbers that the `%d` branch of print_number renders. */
  predicate IsInt32(d: real) {
    d == d.Floor as real && INT_MIN <= d.Floor <= INT_MAX
  }

  /** The values whose text this model covers: 32-bit integers, NUL-free strings and names, any nesting. */
  ghost predicate Printable(v: Json)
    decreases v
  {
    match v
    case Number(d) => IsInt32(d)
    case String(s) => NulFree(s)
    case Array(items) => forall x :: x in items ==> Printable(x)
    case Object(members) => forall m :: m in members ==> NulFree(m.name) && Printable(m.value)
    case _ => true
  }
}
