/** The part of the parsed sample-data document that the report code reads. */
module Json {

  /** A scalar field value: JSON `null` (Python `None`), the non-standard
      `NaN` literal that Python's json module accepts (a float), or a string. */
  datatype Scalar = Null | NaN | Str(s: string)

  /** A JSON object whose values are scalars. */
  type Object = map<string, Scalar>

  /** `obj.get(key, default)` */
  function Get(obj: Object, key: string, default: Scalar): Scalar {
    if key in obj then obj[key] else default
  }

  /** Python truthiness: `None` and `""` are false; NaN, like every
      non-zero float, is true. */
  predicate Truthy(v: Scalar) {
    match v
    case Null => false
    case NaN => true
    case Str(s) => s != ""
  }
}
