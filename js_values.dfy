/**
 The values found in the release configuration trees: JSON scalars, `null`
 and nested objects (a JSON array is an object whose keys are its indices).
 */
module JsValues {
  import opened Options
  import opened JsObjects

  datatype Value =
    | Null
    | Bool(b: bool)
    | Num(n: int)
    | Str(s: string)
    | Obj(props: Dict<Value>)

  /** JavaScript truthiness, `!!v`: `null`, `false`, `0` and `""` are falsy, objects are truthy. */
  predicate Truthy(v: Value) {
    match v
    case Null => false
    case Bool(b) => b
    case Num(n) => n != 0
    case Str(s) => s != ""
    case Obj(_) => true
  }

  /** Truthiness of a property read; a missing property reads as `undefined`, which is falsy. */
  predicate TruthyRead(r: Option<Value>) {
    r.Some? && Truthy(r.value)
  }
}
