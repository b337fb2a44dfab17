/**
 * What a controller hands back: an HTTP status with an optional body, or an
 * exception that escapes the controller (and is mapped to a status by the
 * application's global exception handler, which this model does not include).
 */
module Http {
  import opened Wrappers

  /** The HTTP statuses the controllers use. */
  datatype HttpStatus = OK | CREATED | NO_CONTENT | BAD_REQUEST | NOT_FOUND | CONFLICT | INSUFFICIENT_STORAGE

  /** The exceptions the services throw. */
  datatype Error =
    | NotFound          // ResourceNotFoundException: no order or user with that key
    | IllegalArgument   // IllegalArgumentException: invalid name, items, amount, or missing inventory
    | InventoryNotFound // RuntimeException: an update before any inventory exists
    | UsernameTaken     // WolfCafeAPIException: username already exists
    | EmailTaken        // WolfCafeAPIException: email already exists

  /** A controller's answer: a response entity, or an exception that propagates. */
  datatype Response<+T> = Respond(status: HttpStatus, body: Option<T>) | Raised(error: Error)
}
