/** Values shared by the gateway model: optional and failure-carrying values, and bytes. */
module Results {

  datatype Option<+T> = None | Some(value: T) {
    /** The `x || fallback` idiom for a value that may be absent. */
    function GetOr(fallback: T): T {
      match this
      case Some(v) => v
      case None => fallback
    }
  }

  /** What a JavaScript `await`/`throw` pair yields once exceptions are made explicit. */
  datatype Result<+T, +E> = Ok(value: T) | Err(error: E)

  /** An octet: file contents and UTF-8 code units. */
  type Byte = b: int | 0 <= b < 256
}
