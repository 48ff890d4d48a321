/** Failure-carrying results for the Python operations that can raise. */
module Wrappers {

  /** The Python exceptions that the modelled code can raise. */
  datatype Error =
    | ValueError        // os.path.relpath called with an empty path
    | EnvironmentError  // mergetree called on a source that is not a directory
    | IndexError        // indexing an empty list

  /** A value, or the exception raised instead of returning one. */
  datatype Result<+T> = Ok(value: T) | Err(error: Error) {
    predicate IsFailure() {
      Err?
    }

    function PropagateFailure<U>(): Result<U>
      requires Err?
    {
      Err(error)
    }

    function Extract(): T
      requires Ok?
    {
      value
    }
  }

  datatype Option<+T> = None | Some(value: T) {
    function GetOr(default: T): T {
      match this
      case Some(v) => v
      case None => default
    }
  }

  /** Python's truth value of an optional string: set and not empty. */
  predicate Truthy(o: Option<string>) {
    o.Some? && o.value != ""
  }
}
