/** The responses the routes send: a status code and a JSON body. */
module Http {
  import opened Wrappers

  /** Where a validated value came from. */
  datatype Location = Body | Params

  /** One entry of express-validator's `errors.array()`: the field's location and
      path, the value it had (None when the field was absent) and the message. */
  datatype FieldError = FieldError(location: Location, path: string, value: Option<string>, msg: string)

  datatype Reply<+T> =
    | Ok(body: T)                            // 200 with the body
    | Created(body: T)                       // 201 with the body
    | ValidationError(errors: seq<FieldError>) // 400 { errors: [...] }
    | NotFound(message: string)              // 404 { message }
    | InvalidCredentials(message: string)    // 401 { message }
    | InternalError(message: string)         // 500 { message }
}
