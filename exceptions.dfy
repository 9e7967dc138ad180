/** Error taxonomy of the decoder (src/exceptions.py).  Every exception of the
    source becomes an `Err` value carrying the exception's kind, the position it
    names (when it names one) and the offending character (when it names one).
    Message texts are not modelled. */
module Exceptions {

  datatype Option<+T> = None | Some(value: T)

  /** JSONSyntaxError, JSONEncodingError and JSONDepthError; all three derive from
      JSONValidationError in the source. */
  datatype ErrorKind = SyntaxError | EncodingError | DepthError

  datatype Error = Error(kind: ErrorKind, position: Option<nat>, ch: Option<char>)

  datatype Result<+T> = Ok(value: T) | Err(error: Error)

  /** JSONSyntaxError(message, position, char) */
  function Syntax(position: Option<nat>, ch: Option<char>): Error
  {
    Error(SyntaxError, position, ch)
  }

  /** JSONEncodingError(message): the source passes neither position nor char. */
  const Encoding: Error := Error(EncodingError, None, None)

  /** JSONDepthError(message) */
  const TooDeep: Error := Error(DepthError, None, None)

  /** Forget the cursor position that a reference function returns beside its result. */
  function Payload<T>(r: Result<(T, nat)>): Result<T>
  {
    match r
    case Ok((v, _)) => Ok(v)
    case Err(e) => Err(e)
  }
}
