/** The loosely typed values that can sit in local storage. */
module Json {

  /** A JSON-like stored value. Numbers are integers (timestamps are epoch
      milliseconds); arrays are not represented. */
  datatype Raw =
    | Null
    | Bool(b: bool)
    | Num(n: int)
    | Str(s: string)
    | Obj(fields: map<string, Raw>)

  /** JavaScript truthiness of a stored value. */
  predicate Truthy(v: Raw) {
    match v
    case Null => false
    case Bool(b) => b
    case Num(n) => n != 0
    case Str(s) => s != ""
    case Obj(_) => true
  }

  /** The property `key` of `v` holds a string. */
  predicate StringAt(v: Raw, key: string) {
    v.Obj? && key in v.fields && v.fields[key].Str?
  }

  /** The property `key` of `v` holds a number. */
  predicate NumberAt(v: Raw, key: string) {
    v.Obj? && key in v.fields && v.fields[key].Num?
  }
}
