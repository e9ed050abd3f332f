/**
 * The JavaScript values that the type tests and conversions inspect.
 * Numbers are kept as exact reals: floating-point rounding, NaN and the
 * infinities are not modelled.
 */
module JsValues {

  datatype Value =
    | Undefined
    | Null
    | Boolean(b: bool)
    | Number(x: real)
    | BigInt(n: int)
    | Str(s: string)
    | Object(props: map<string, Value>)
    | Array(elts: seq<Value>)
    | Function(id: nat)

  /** JavaScript truthiness of a value. */
  predicate Truthy(v: Value) {
    match v
    case Undefined => false
    case Null => false
    case Boolean(b) => b
    case Number(x) => x != 0.0
    case BigInt(n) => n != 0
    case Str(s) => s != ""
    case _ => true
  }

  /** The `typeof` operator. */
  function TypeOf(v: Value): string {
    match v
    case Undefined => "undefined"
    case Null => "object"
    case Boolean(_) => "boolean"
    case Number(_) => "number"
    case BigInt(_) => "bigint"
    case Str(_) => "string"
    case Object(_) => "object"
    case Array(_) => "object"
    case Function(_) => "function"
  }

  /** The `key in v` test: own keys of a plain object (arrays and functions carry none here). */
  predicate HasKey(v: Value, key: string) {
    v.Object? && key in v.props
  }
}
