/** The parsed form of a service reply, as far as the exporter looks at it. */
module Json {

  /**
   * One field of a parsed JSON object: `null`, a string, or any other JSON
   * value (number, boolean, array, object), kept as its literal text.
   */
  datatype Value = Null | Str(text: string) | Scalar(literal: string)

  /** A parsed JSON object: field name to value. */
  type Record = map<string, Value>

  /** Python truthiness of a dict: it is true exactly when it has a key. */
  predicate Truthy(r: Record) {
    |r| > 0
  }
}
