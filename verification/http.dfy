/** A route handler's JSON reply: success with its data, or an error message, with the HTTP status. */
module Http {

  datatype Reply<+T> = Ok(status: int, data: T) | Err(status: int, message: string)
}
