/** The status codes the C functions return as negative numbers. */
module Results {

  datatype Errno = EINVAL | EOVERFLOW | ERANGE | ENOSYS | ENOSPC

  /** A non-negative C return value, or the error it stands for. */
  datatype Result<+T> = Ok(value: T) | Err(errno: Errno) {
    predicate IsFailure() { Err? }

    function PropagateFailure<U>(): Result<U>
      requires Err?
    {
      Err(errno)
    }

    function Extract(): T
      requires Ok?
    {
      value
    }
  }

  datatype Option<+T> = None | Some(value: T)

  /** A text, or the error of a buffer it does not fit. */
  function IfFits(text: string, capacity: nat): Result<string> {
    if |text| <= capacity then Ok(text) else Err(EOVERFLOW)
  }

  /** The buffer holds the text and its length was returned, or its error was. */
  ghost predicate BodyInBuffer(body: Result<string>, r: Result<nat>, buffer: string) {
    match body
    case Ok(text) => |text| <= |buffer| && r == Ok(|text|) && buffer[..|text|] == text
    case Err(errno) => r == Err(errno)
  }
}
