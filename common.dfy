/** Failure kinds and the small wrapper types every name and file module shares. */
module Common {

  /** The ways an operation can fail.
      IllegalArgument, InvalidState and MethodFailed are the contract exceptions of the later
      versions; OutOfBounds is the plain "Index out of bounds" error of the early versions;
      NotOpen and NotClosed are the file errors; Unimplemented is the abstract clone's error. */
  datatype Error =
    | IllegalArgument
    | InvalidState
    | MethodFailed
    | OutOfBounds
    | NotOpen
    | NotClosed
    | Unimplemented

  /** A value, or the error the operation raised instead. */
  datatype Result<+T> = Ok(value: T) | Err(error: Error)

  /** The outcome of an operation that returns nothing. */
  datatype Status = Done | Failed(error: Error)

  /** An optional argument, or a reference that may be null or undefined. */
  datatype Option<+T> = None | Some(value: T) {
    function GetOr(default: T): T {
      match this
      case Some(v) => v
      case None => default
    }
  }
}
