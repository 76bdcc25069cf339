/** JSON values as encoding/json decodes them into `interface{}`, and the one
    typing step the core relies on: decoding into `map[string]interface{}`.
    The JSON grammar itself is not modelled; a parser is passed in. */
module Json {
  import opened Outcomes

  /** A decoded JSON value. Numbers become float64 in Go; only their
      presence matters here, so they are kept as reals. An object is a map:
      with a repeated key the last member wins, as in Go. */
  datatype Value =
    | Null
    | Bool(b: bool)
    | Number(n: real)
    | Str(s: string)
    | Array(items: seq<Value>)
    | Object(fields: map<string, Value>)

  /** json.Unmarshal(text, &m) with `m` a fresh nil `map[string]interface{}`:
      an object fills the map; `null` leaves the map nil, which reads as
      empty; any other value is a type error; a syntax error is passed on
      with its message. */
  function Unmarshal(parse: string -> Result<Value>, text: string): (r: Outcome<map<string, Value>>)
    ensures !r.Panic?
    ensures r.Ok? <==> parse(text).Success? && (parse(text).value.Object? || parse(text).value.Null?)
    ensures r.Ok? && parse(text).value.Object? ==> r.value == parse(text).value.fields
    ensures r.Ok? && parse(text).value.Null? ==> r.value == map[]
    ensures parse(text).Failure? <==> r.Err? && r.error.JsonSyntaxError?
    ensures parse(text).Failure? ==> r.error.msg == parse(text).msg
    ensures r.Err? && parse(text).Success? ==> r.error == JsonTypeError
  {
    match parse(text)
    case Failure(msg) => Err(JsonSyntaxError(msg))
    case Success(Object(fields)) => Ok(fields)
    case Success(Null) => Ok(map[])
    case Success(_) => Err(JsonTypeError)
  }
}
