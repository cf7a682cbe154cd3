/** Failure-compatible result types shared by the pet handlers.

    Every handler of the pets router either returns a value or raises an
    HTTP error; the errors it can raise are collected in `Err`, named after
    the status code FastAPI turns them into. */
module Outcomes {

  /** The error taxonomy of the pets router. `Internal` stands for every
      exception that is not an `HTTPException` (a `ValueError`, a driver
      error): FastAPI answers those with a 500. */
  datatype Err = BadRequest400 | NotFound404 | NotModified304 | Internal

  /** Absent/present value, the model of Python's `None` vs. a value. */
  datatype Option<+T> = None | Some(value: T)

  /** The outcome of a handler: a value, or the error it raises. */
  datatype Result<+T> = Ok(value: T) | Failure(err: Err) {

    predicate IsFailure() {
      Failure?
    }

    function PropagateFailure<U>(): Result<U>
      requires Failure?
    {
      Failure(err)
    }

    function Extract(): T
      requires Ok?
    {
      value
    }
  }
}
