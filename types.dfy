/** Shapes shared by the item service and its controller: the error taxonomy the
    service raises and the form in which a request body member reaches it. */
module Types {

  /** The three kinds of failure the service raises. The source tags them by
      exception class and message text; here they are a typed discriminator. */
  datatype ServiceError =
    | Validation(message: string)  // a ValidationError: the client sent unacceptable data
    | NotFound(message: string)    // the referenced id is not in the table
    | Internal(message: string)    // any store failure, wrapped in a generic message

  /** The result of a service operation: a value, or the error it raised. */
  datatype Outcome<+T> = Ok(value: T) | Err(error: ServiceError)

  datatype Option<+T> = None | Some(value: T)

  /** A member of a parsed JSON request body: missing, an explicit `null`, or a value. */
  datatype JsonField<+T> = Absent | Null | Present(value: T)
}
