/** The JavaScript values a parsed JSON request can carry, and JavaScript's truthiness. */
module JsValues {

  /** A scalar of a parsed JSON body, or `undefined` for a property that is absent.
      JavaScript numbers are IEEE doubles; the model takes them as exact reals. */
  datatype JsValue =
    | Undefined
    | Null
    | Bool(b: bool)
    | Num(n: real)
    | Str(s: string)

  /** `!!v`: false exactly for undefined, null, false, 0 and the empty string. */
  predicate Truthy(v: JsValue)
  {
    match v
    case Undefined => false
    case Null => false
    case Bool(b) => b
    case Num(n) => n != 0.0
    case Str(s) => s != ""
  }

  /** What a rejected promise carries: an object with a `message` property (an `Error`),
      or a primitive value thrown as it is. */
  datatype Thrown = ErrorObject(message: JsValue) | Primitive(value: JsValue)
}
