/** Go's `error` values and the two-result returns of the kiosk's collaborators. */
module Errors {

  datatype Option<+T> = None | Some(value: T)

  /** A Go `error`: `Nil`, or a failure carrying its message. */
  datatype Error = Nil | Failure(msg: string)

  /** A Go `(value, error)` pair where exactly one of the two is meaningful. */
  datatype Result<+T> = Ok(value: T) | Err(error: string) {
    /** The `error` half of the pair. */
    function ErrorOf(): (e: Error)
      ensures e == Nil <==> Ok?
    {
      if Ok? then Nil else Failure(error)
    }
  }

  /** Bytes of an image, as read from or written to a file. */
  newtype byte = x: int | 0 <= x < 256
  type Bytes = seq<byte>
}
