/** Failure-compatible result types shared by the matrix model.

- Error: the three Python exceptions the matrix code can raise.
- Result<T>: either a value or the exception raised instead of producing it;
  usable with `:-`, which propagates the first exception like Python does.
- Option<T>: an optional value, used for the omitted parts of a slice.
 */
module Wrappers {

  /** The exceptions raised by the matrix code and by the list primitives it uses. */
  datatype Error = ValueError | IndexError | TypeError

  /** A value, or the exception raised instead of producing it. */
  datatype Result<+T> = Ok(value: T) | Err(error: Error) {

    predicate IsFailure() {
      Err?
    }

    function PropagateFailure<U>(): Result<U>
      requires Err?
    {
      Err(error)
    }

    function Extract(): T
      requires Ok?
    {
      value
    }
  }

  /** An optional value; `None` stands for an omitted slice bound or step. */
  datatype Option<+T> = None | Some(value: T) {

    function GetOr(default: T): T {
      match this
      case Some(v) => v
      case None => default
    }
  }
}
