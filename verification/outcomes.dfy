/** Failure-carrying values shared by the services: an optional value for
    Java references that may be null, and a result that is either a value or
    the kind of exception the service lets escape. */
module Outcomes {

  /** A Java reference that may be null. */
  datatype Option<+T> = None | Some(value: T)

  /** The exception kinds a caller of the services can observe. Messages are
      not modelled, only which exception class escapes. */
  datatype ErrorKind =
    | NotFound          // NotFoundExceptionHandler
    | BadRequest        // BadRequestExceptionHandler
    | UsernameNotFound  // UsernameNotFoundException raised by the login bridge
    | DataAccess        // a repository exception thrown outside any try block
    | EmptyPrincipal    // the principal constructor rejects an empty login name

  /** Either the value an operation returns or the exception it throws. */
  datatype Result<+T> = Ok(value: T) | Err(error: ErrorKind)
}
