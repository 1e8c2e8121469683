/** The `json` crate's `JsonValue`, the dynamically typed value both
    conversion directions go through. */
module Json {

  /** The crate's `json::number::Number`; its representation belongs to the
      crate and is not part of this model. */
  type Num(==)

  /** `JsonValue`. The crate stores text either inline (`Short`, for short
      strings) or on the heap (`String`); both carry the same kind of text.
      `Object` is the crate's ordered key/value store. */
  datatype JsonValue =
    | Null
    | Short(text: string)
    | String(text: string)
    | Number(num: Num)
    | Boolean(b: bool)
    | Object(entries: seq<(string, JsonValue)>)
    | Array(elems: seq<JsonValue>)

  /** True if `j` holds text, in either of the crate's string variants. */
  predicate IsText(j: JsonValue) {
    j.Short? || j.String?
  }

  /** True if no `Object` occurs anywhere inside `j`. */
  predicate ObjectFree(j: JsonValue) {
    match j
    case Object(_) => false
    case Array(a) => forall i :: 0 <= i < |a| ==> ObjectFree(a[i])
    case _ => true
  }
}
