/** Shared vocabulary: optional values, results that carry an error message
    (the JavaScript code signals failure by throwing an Error with a message,
    or by rejecting a promise), and bytes. */
module Base {

  datatype Option<+T> = None | Some(value: T) {
    function GetOr(default: T): T {
      match this
      case Some(v) => v
      case None => default
    }
  }

  /** Outcome of an operation that may throw; `error` is the Error's message. */
  datatype Result<+T> = Success(value: T) | Failure(error: string)

  /** An 8-bit byte of an image file. */
  type Byte = b: int | 0 <= b < 256
}
