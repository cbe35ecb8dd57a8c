/** Shared vocabulary of the upload service: optional values, the tri-state
    outcome of a database write, and the HTTP exceptions the services raise. */
module Common {

  datatype Option<+T> = None | Some(value: T) {
    function GetOr(default: T): T {
      match this
      case Some(v) => v
      case None => default
    }
  }

  /** Outcome of a persistence attempt (the `DBSavedStatus` / `CreatedStatus` enum). */
  datatype DBSavedStatus = SUCCESS | CONFLICT | ERROR

  /** The exceptions the services throw. `Uncaught` stands for an error of a
      remote client (S3 SDK) that the service does not catch and that the web
      framework therefore answers with a generic 500. */
  datatype HttpException =
    | BadRequest(message: string)
    | Unauthorized(message: string)
    | NotFound
    | Conflict(message: string)
    | InternalServerError
    | Uncaught(code: string)

  /** The result of a service call: a value, or the exception it throws. */
  datatype Result<+T> = Ok(value: T) | Err(error: HttpException)

  /** The result of a service call that returns nothing (`Promise<void>`). */
  datatype Outcome = Pass | Fail(error: HttpException)
}
