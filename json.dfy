/** JavaScript values as the JSON utilities see them: the JSON data model plus
    `undefined`. Numbers are integers here (see README, "Left out"). */
module Json {

  datatype JsonValue =
    | Null
    | Undefined
    | Bool(b: bool)
    | Num(n: int)
    | Str(s: string)
    | Arr(items: seq<JsonValue>)
    | Obj(entries: seq<Entry>)

  /** One own enumerable property of an object, in `Object.entries` order. */
  datatype Entry = Entry(key: string, value: JsonValue)

  /** Neither an array nor an object: what `typeof` reports as something
      other than "object", plus `null`. */
  predicate IsPrimitive(v: JsonValue)
  {
    !v.Arr? && !v.Obj?
  }

  /** The type tag the walkers attach to a value: `"null"` for null,
      `"array"` for arrays, otherwise `typeof`. */
  function ValueType(v: JsonValue): string
  {
    match v
    case Null => "null"
    case Undefined => "undefined"
    case Bool(_) => "boolean"
    case Num(_) => "number"
    case Str(_) => "string"
    case Arr(_) => "array"
    case Obj(_) => "object"
  }

  /** `Boolean(v)`: false for null, undefined, false, 0 and "". */
  predicate Truthy(v: JsonValue)
  {
    match v
    case Null => false
    case Undefined => false
    case Bool(b) => b
    case Num(n) => n != 0
    case Str(s) => s != ""
    case _ => true
  }

  /** The values of an object's entries, in order (`Object.values`). */
  function Values(entries: seq<Entry>): (r: seq<JsonValue>)
    ensures |r| == |entries|
    ensures forall i :: 0 <= i < |r| ==> r[i] == entries[i].value
  {
    seq(|entries|, i requires 0 <= i < |entries| => entries[i].value)
  }
}
