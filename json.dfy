/**
 * JSON values as `json.loads` returns them, with strings limited to
 * Unicode scalar values, and the decoder as an opaque parameter: the
 * RFC 8259 grammar is the library's business and is not modelled here.
 */
module Json {
  import opened Wrappers

  /** One decoded JSON text. An object is a key-to-value map: how the
      decoder resolves a repeated key is the decoder's concern. */
  datatype JsonValue =
    | JNull
    | JBool(b: bool)
    | JNumber(literal: string)
    | JString(s: string)
    | JArray(items: seq<JsonValue>)
    | JObject(fields: map<string, JsonValue>)

  /** Why decoding a line failed. `Malformed` is `json.JSONDecodeError`.
      `OtherDecodeFailure` is any other exception `json.loads` raises: a
      `RecursionError` on very deeply nested input, the `ValueError` of
      `int` on an integer literal longer than the interpreter's digit
      limit, or a `MemoryError`. */
  datatype DecodeFailure = Malformed | OtherDecodeFailure

  /** `json.loads` applied to one line. */
  type Parser = string -> Result<JsonValue, DecodeFailure>
}
