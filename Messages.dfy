/** JSON request bodies and handler outcomes of the mock API server.
    A request body is the decoded JSON object (`request.get_json()`); a handler
    returns a Response instead of an HTTP status and a JSON payload. */
module Messages {

  /** A decoded JSON value. Numbers are integers only. */
  datatype Json =
    | JNull
    | JBool(b: bool)
    | JInt(i: int)
    | JStr(s: string)
    | JList(items: seq<Json>)
    | JObject(fields: map<string, Json>)

  /** The JSON object a client posts. */
  type Body = map<string, Json>

  /** `data.get(key, default)`: the value under `key`, or `default` when the key is absent. */
  function FieldOr(body: Body, key: string, default: Json): Json
  {
    if key in body then body[key] else default
  }

  /** `data.get(key)`: an absent key reads as None, which is serialised as null. */
  function Field(body: Body, key: string): Json
  {
    FieldOr(body, key, JNull)
  }

  /** Python truthiness of a decoded JSON value (`not value` is its negation). */
  predicate Truthy(j: Json)
    ensures !Truthy(j) <==>
      j in {JNull, JBool(false), JInt(0), JStr(""), JList([]), JObject(map[])}
  {
    match j
    case JNull => false
    case JBool(b) => b
    case JInt(i) => i != 0
    case JStr(s) => s != ""
    case JList(items) => items != []
    case JObject(fields) => fields != map[]
  }

  /** A value that may be missing; None also stands for an expression that raises. */
  datatype Option<+T> = None | Some(value: T)

  /** The outcome of a handler: a payload (200/201/204), a client error with its
      message (400), an empty not-found body (404), or an uncaught exception (500). */
  datatype Response<+T> =
    | Ok(body: T)
    | BadRequest(error: string)
    | NotFound
    | ServerError
}
