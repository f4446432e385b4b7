/** The Python values that flow through the core, reduced to what the core
    inspects: whether a value is `None`, and whether it is truthy. */
module Values {

  /** A Python value. `Opaque` stands for any other object (containers,
      floats, functions, instances); the core never looks inside one and
      only asks for its truthiness, which it carries (`{}`, `[]`, `()` and
      `0.0` are falsy, a function is truthy). */
  datatype Value =
    | NoneV
    | BoolV(b: bool)
    | IntV(i: int)
    | StrV(s: string)
    | Opaque(tag: nat, truthy: bool)

  /** Python truthiness as used by `if x:` and `x if x else y`. */
  predicate Truthy(v: Value) {
    match v
    case NoneV => false
    case BoolV(b) => b
    case IntV(i) => i != 0
    case StrV(s) => s != ""
    case Opaque(_, t) => t
  }
}
