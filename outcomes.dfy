/** Results of the library calls the core depends on, the errors it returns
    and the panics its unchecked type assertions raise. */
module Outcomes {

  /** What a library call (transport, HTML query, percent-decoding, JSON
      syntax) gives back: a value, or a Go `error` carrying its message. */
  datatype Result<+T> = Success(value: T) | Failure(msg: string)

  /** The Go `error` values the core returns to its caller. */
  datatype Error =
    | UrlIsError                   // errors.New("url is error"): URLCheck rejected the input
    | UrlNotFound                  // errors.New("url not found"): no anchor matched the article id
    | FetchError(msg: string)      // request construction, network or body read failed
    | HtmlError(msg: string)       // the HTML parser failed
    | UnescapeError(msg: string)   // url.QueryUnescape failed
    | JsonSyntaxError(msg: string) // json.Unmarshal rejected the text (the parser failed)
    | JsonTypeError                // json.Unmarshal found a top-level value that is not an object

  /** The run-time panics raised by the unchecked type assertions. */
  datatype Fault =
    | UrlNotString                 // appJson["url"].(string)
    | ListNotArray                 // apiJSON["list"].([]interface{})
    | ItemNotObject(index: nat)    // imgList[i].(map[string]interface{})
    | ItemUrlNotString(index: nat) // mData["url"].(string)

  /** The outcome of a core operation: a value, a returned error, or a panic
      that unwinds through every caller. Failure-compatible, so `:-` gives
      Go's `if err != nil { return ..., err }`. */
  datatype Outcome<+T> = Ok(value: T) | Err(error: Error) | Panic(fault: Fault) {

    predicate IsFailure() {
      !Ok?
    }

    function PropagateFailure<U>(): Outcome<U>
      requires !Ok?
    {
      if Err? then Err(error) else Panic(fault)
    }

    function Extract(): T
      requires Ok?
    {
      value
    }
  }
}
