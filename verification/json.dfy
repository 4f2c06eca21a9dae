/** The dynamic JSON value that Go decodes into `map[string]interface{}`.
    Decoding and encoding themselves are not modelled: callers receive them
    as function parameters. */
module Json {

  datatype Json =
    | Null
    | Bool(b: bool)
    | Number(literal: string)
    | String(s: string)
    | Array(items: seq<Json>)
    | Object(members: map<string, Json>)

  /** A top-level JSON object: one message payload. */
  type Message = map<string, Json>
}
