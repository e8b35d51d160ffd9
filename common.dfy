/** Small shared vocabulary: optional values, outcomes of steps that may raise, bytes, HTTP responses. */
module Common {

  datatype Option<+T> = None | Some(value: T)

  /** The outcome of a filesystem step: `Err` stands for an exception that propagates out of the step. */
  datatype Result<+T> = Ok(value: T) | Err

  newtype byte = x: int | 0 <= x < 256

  type Bytes = seq<byte>

  type Header = (string, string)

  /** What a handler hands back to the web framework. */
  datatype Response = Response(status: int, headers: seq<Header>, body: Bytes)

  /** A bodiless error response (the static error pages are not part of this model). */
  function ErrorResponse(status: int): Response
  {
    Response(status, [], [])
  }
}
