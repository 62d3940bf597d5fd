/** Outcomes of the request handlers: a value, or an error carrying the HTTP
    status the Express error handler would send. */
module Responses {

  datatype Option<+T> = None | Some(value: T)

  /** The failures the handlers produce, one constructor per HTTP status. */
  datatype Error =
    | BadRequest(message: string)   // 400
    | NotFound                      // 404, body { message: 'Not found' }
    | Conflict(message: string)     // 409
    | ServerError(message: string)  // 500
  {
    function Status(): int {
      match this
      case BadRequest(_) => 400
      case NotFound => 404
      case Conflict(_) => 409
      case ServerError(_) => 500
    }
  }

  datatype Result<+T> = Ok(value: T) | Err(error: Error)
}
