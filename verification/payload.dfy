/** The game token's payload. The authoring page serialises a JSON object with
    `JSON.stringify` and `btoa`; the game page reverses this with
    `base64_decode` and `json_decode`. Those library routines are not modelled:
    a `Codec` stands for the pair, and `RoundTrips` is the one thing assumed of
    it. */
module Payload {
  import opened Wrappers

  /** A decoded JSON value. A number is kept as the text PHP produces when the
      number is coerced to a string, which is all the game page ever does
      with one. */
  datatype Json =
    | JNull
    | JBool(b: bool)
    | JNumber(repr: string)
    | JString(s: string)
    | JArray(items: seq<Json>)
    | JObject(fields: map<string, Json>)

  /** Why the text-to-value direction can fail: `base64_decode` returned
      false, or `json_decode` could not parse what it returned. */
  datatype DecodeError = InvalidBase64 | InvalidJson

  /** Serialisation to a token and back, as two opaque total functions. */
  datatype Codec = Codec(encode: Json -> string, decode: string -> Result<Json, DecodeError>)

  /** The round-trip assumption: decoding an encoded value gives it back. */
  ghost predicate RoundTrips(c: Codec) {
    forall j :: c.decode(c.encode(j)) == Success(j)
  }

  /** PHP `isset($value[$key])` on a decoded payload: only an object can carry
      a string key, and a key bound to null does not count as set. */
  predicate IsSet(j: Json, key: string) {
    j.JObject? && key in j.fields && j.fields[key] != JNull
  }

  /** The string PHP hands to a `string` parameter under non-strict typing:
      scalars are converted, arrays and objects raise a TypeError (None). */
  function PhpString(j: Json): Option<string> {
    match j
    case JNull => Some("")
    case JBool(b) => Some(if b then "1" else "")
    case JNumber(repr) => Some(repr)
    case JString(s) => Some(s)
    case JArray(_) => None
    case JObject(_) => None
  }
}
