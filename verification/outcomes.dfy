/** Small failure-carrying datatypes shared by the whole model. */
module Outcomes {

  /** A value that may be absent: JavaScript's `undefined`/`null` for an optional field. */
  datatype Option<+T> = None | Some(value: T)

  /** The outcome of an operation that either produces a value or throws an error. */
  datatype Result<+T, +E> = Success(value: T) | Failure(error: E) {

    /** The value, or `default` when the operation threw (a `catch` that substitutes a value). */
    function GetOr(default: T): (r: T)
      ensures Success? ==> r == value
      ensures Failure? ==> r == default
    {
      match this
      case Success(v) => v
      case Failure(_) => default
    }
  }

  /** The settled state of a promise returned by code outside the model
      (a network request, a JSON parse, a call into a remote service):
      either it resolved with a value or it rejected. */
  datatype Reply<+T> = Resolved(value: T) | Rejected

  /** JavaScript truthiness of an optional string: present and not empty. */
  predicate Truthy(s: Option<string>)
  {
    s.Some? && |s.value| > 0
  }
}
