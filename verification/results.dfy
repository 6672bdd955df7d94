/** Failure-compatible wrappers shared by every layer of the model. */
module Results {

  /** A value that may be absent, as Python's `None`. */
  datatype Option<+T> = None | Some(value: T) {
    function GetOr(default: T): T {
      match this
      case Some(v) => v
      case None => default
    }
  }

  /** The outcome of a call that either returns a value or raises. */
  datatype Result<+T, +E> = Success(value: T) | Failure(error: E)

  /** The exceptions raised by the store, its repositories and the page
      arithmetic of the controllers, one constructor per raise site. */
  datatype Error =
    | KeyNotInSchema        // constructor: key column missing from the schema
    | DuplicateKey(key: string)
    | UnknownField          // csv.DictWriter: a field outside the schema
    | NotFound(key: string) // update of an absent or tombstoned key
    | KeyImmutable          // update that names the key column
    | BadFlag               // int() of a `deleted` value that is not a number
    | ServerNotFound(id: string)
    | ZeroDivision          // Python's `//` with a zero divisor
}
