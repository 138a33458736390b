/** Decoded JSON values, as the commands see them after `json.loads`. An object is the
    sequence of its `(key, value)` entries in the order the decoder keeps them. The
    decoder merges repeated keys (`DuplicateKeys.OrderedDict` keeps the last value), so
    the keys of a decoded object are distinct. The type does not enforce this, and the
    properties stated over it hold for repeated keys as well. */
module JsonValue {
  import opened Text

  /** `Number` carries Python's `str()` of the decoded number: the decimal digits of an
      `int`, the `repr` of a `float` or `Decimal`. */
  datatype Json =
    | Object(fields: seq<(String, Json)>)
    | Array(items: seq<Json>)
    | Str(text: String)
    | Number(repr: String)
    | Bool(b: bool)
    | Null

  /** A value that has something inside it: a non-empty object or any list. */
  predicate IsContainer(j: Json) {
    (j.Object? && |j.fields| > 0) || j.Array?
  }

  /** Python's `str(value)` for the values that are not containers. */
  function PyStr(j: Json): (r: String)
    requires !IsContainer(j)
    ensures j.Str? ==> r == j.text
    ensures j.Object? ==> r == "{}"
  {
    match j
    case Object(_) => "{}"
    case Str(t) => t
    case Number(t) => t
    case Bool(b) => if b then "True" else "False"
    case Null => "None"
  }

  /** The number of entries or elements directly inside `j`. */
  function Width(j: Json): nat {
    match j
    case Object(fields) => |fields|
    case Array(items) => |items|
    case _ => 0
  }
}
