/** Option, Result and the error values shared by the whole client. */
module Wrappers {

  datatype Option<+T> = None | Some(value: T)

  datatype Result<+T, +E> = Ok(value: T) | Err(error: E) {
    predicate IsFailure() {
      Err?
    }

    function PropagateFailure<U>(): Result<U, E>
      requires Err?
    {
      Err(error)
    }

    function Extract(): T
      requires Ok?
    {
      value
    }
  }

  /** The two origins of an IoError: the transport, or a URL without a known protocol. */
  datatype IoKind = Transport(code: int) | InvalidProtocol

  /**
   The errors the modelled code returns. ArithmeticOverflow is not a value of the crate: it stands for
   the panic of an unsigned subtraction or addition that leaves the range of usize (a build with
   overflow checks).
   */
  datatype Error =
    | IoError(kind: IoKind)
    | MalformedChunkLength
    | MalformedContentLength
    | HeadersOverflow
    | StatusLineOverflow
    | RedirectLocationMissing
    | InfiniteRedirectionLoop
    | TooManyRedirections
    | InvalidUtf8InResponse
    | HttpsFeatureNotEnabled
    | PunycodeFeatureNotEnabled
    | BadProxy
    | ArithmeticOverflow

  /** usize on a 64-bit target. */
  const USIZE_MAX: nat := 0xFFFF_FFFF_FFFF_FFFF
}
