/** Failure-compatible wrappers shared by the whole model. */
module Wrappers {

  /** A value that may be absent: a JavaScript `null`/`undefined` or an empty sheet cell. */
  datatype Option<+T> = None | Some(value: T) {

    /** The wrapped value, or `default` when absent. */
    function GetOr(default: T): T {
      match this
      case Some(v) => v
      case None => default
    }
  }

  /** Outcome of one call to the contest API: the decoded `result` payload when the transport
      answered 200 and the envelope's status was "OK", otherwise the error message (the API's
      comment, the HTTP status or the connection error).  The fixed delay after every call and
      the URL building are not part of the model. */
  datatype ApiResult<+T> = Ok(data: T) | Failed(message: string)

  /** The payload of a successful call; a failed call contributes nothing. */
  function DataOrEmpty<T>(r: ApiResult<seq<T>>): seq<T> {
    match r
    case Ok(d) => d
    case Failed(_) => []
  }

  /** JavaScript truthiness of an optional count: present and non-zero. */
  predicate Truthy(o: Option<nat>) {
    o.Some? && o.value != 0
  }

  function Min(a: int, b: int): int {
    if a <= b then a else b
  }

  function Max(a: int, b: int): int {
    if a >= b then a else b
  }
}
