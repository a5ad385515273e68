/** Option and Result, the two failure-carrying shapes the model uses for
    "no row found" and for rejected requests. */
module Wrappers {

  datatype Option<+T> = None | Some(value: T) {
    predicate IsFailure() {
      None?
    }

    function PropagateFailure<U>(): Option<U>
      requires None?
    {
      None
    }

    function Extract(): T
      requires Some?
    {
      value
    }
  }

  datatype Result<+T, +E> = Success(value: T) | Failure(error: E) {
    predicate IsFailure() {
      Failure?
    }

    function PropagateFailure<U>(): Result<U, E>
      requires Failure?
    {
      Failure(error)
    }

    function Extract(): T
      requires Success?
    {
      value
    }
  }

  /** An optional form field left unset versus one explicitly given
      (possibly as null), the distinction `dict(exclude_unset=True)` draws. */
  datatype Field<+T> = Unset | Set(value: T)
}

/** The HTTP error a route raises: status code and `detail` text. */
module Http {

  datatype HttpError = HttpError(status: int, detail: string)

  const Unauthorized := 401
  const NotFound := 404
  const Conflict := 409
  const InternalServerError := 500

  /** The body of an unhandled exception's 500 response. */
  const InternalErrorDetail := "Internal Server Error"
}
