/**
 * JSON values as Python's `json.loads` hands them back. The decoder itself is
 * not modelled: the parser takes it as a parameter of type `Decoder`, which
 * yields `None` exactly where `json.loads` raises `JSONDecodeError`.
 */
module Json {
  import opened Wrappers

  /** A decoded JSON document; numbers keep the literal text they were read from. */
  datatype JsonValue =
    | JNull
    | JBool(b: bool)
    | JNumber(literal: string)
    | JString(str: string)
    | JArray(items: seq<JsonValue>)
    | JObject(members: seq<(string, JsonValue)>)

  /** `json.loads` on a string: the decoded value, or `None` for a decode error. */
  type Decoder = string -> Option<JsonValue>
}
