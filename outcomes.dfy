/** Optional values, the service's error kinds and the result of an operation.
    Every service method of the source ends in `throw new HttpException(error.message,
    error.status)`; the kinds below are what that re-wrapping can surface. */
module Outcomes {

  datatype Option<T> = None | Some(value: T) {
    function GetOr(default: T): T {
      if Some? then value else default
    }
  }

  /** BadRequest, NotFound and Conflict carry the HTTP status of the exception the
      source throws; Unexpected is an exception that has no status of its own (a
      Mongoose validation or cast error, a TypeError) re-wrapped without one. */
  datatype Error =
    | BadRequest(message: string)
    | NotFound(message: string)
    | Conflict(message: string)
    | Unexpected

  datatype Result<T> = Success(value: T) | Failure(error: Error)

  const IdNotValid: string := "Id not valid!"

  function TaskNotFound(id: string): string {
    "Task with id " + id + " not found!"
  }
}
