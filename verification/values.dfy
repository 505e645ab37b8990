/** The JavaScript values a stage record holds, and JavaScript truthiness,
    which is what `!d?.completed` and `.filter(Boolean)` test. */
module Values {
  import opened Wrappers

  /** A value stored under a stage field. Form inputs produce strings and
      completion stores `true`; numbers, `null` and nested objects or arrays
      can only arrive from the server. */
  datatype Value = Str(text: string) | Bool(flag: bool) | Num(number: int) | Null | Obj

  /** JavaScript's ToBoolean: the empty string, `false`, `0` and `null` are
      falsy; every object or array is truthy. */
  predicate Truthy(v: Value)
    ensures Truthy(v) <==> v != Str("") && v != Bool(false) && v != Num(0) && v != Null
  {
    match v
    case Str(t) => t != []
    case Bool(b) => b
    case Num(n) => n != 0
    case Null => false
    case Obj => true
  }

  /** Truthiness of a possibly missing value: `undefined` is falsy. */
  predicate TruthyOpt(v: Option<Value>)
  {
    v.Some? && Truthy(v.value)
  }
}
