/**
 * Shared wrappers: a nullable value, the exceptions the core throws, and the
 * two ways an operation ends (with a value, or with one of those exceptions).
 */
module Common {

  /** A Java reference that may be null, or an `Optional`. */
  datatype Option<+T> = None | Some(value: T) {
    function GetOr(default: T): T {
      match this
      case Some(v) => v
      case None => default
    }
  }

  /** One constructor per exception class the core raises. */
  datatype Failure =
    | NotFound(message: string)         // ResourceNotFoundException
    | Duplicate(message: string)        // DuplicateResourceException
    | IllegalArgument(message: string)  // IllegalArgumentException
    | DataAccess(message: string)       // an error the database reports, surfacing as a DataAccessException

  /** A call that returns a value or throws. */
  datatype Result<+T> = Ok(value: T) | Err(error: Failure)

  /** A `void` call that returns normally or throws. */
  datatype Outcome = Pass | Fail(error: Failure)
}
