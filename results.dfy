/** Optional values, the failures the secretary can raise, and the Result that
    carries either a value or one of those failures (Python's exceptions). */
module Results {

  datatype Option<+T> = None | Some(value: T)

  /** The exceptions of the modelled code, one constructor per kind. */
  datatype Error =
    | KeyError(key: string)          // a key missing from a policy document
    | TypeError                      // a document value of the wrong JSON type for its use
    | IndexError                     // indexing past the end of a list
    | ValueError(what: string)       // an illegal setting value or room name
    | DatabaseEntryNotFound          // util.DatabaseEntryNotFoundException
    | IntegrityError                 // an INSERT that repeats a primary key
    | Forbidden(code: int)           // mautrix MForbidden, with its HTTP status
    | NotFound                       // M_NOT_FOUND on a state read
    | ServerError                    // any other failure of a client call

  datatype Result<+T> = Ok(value: T) | Err(error: Error) {

    predicate IsFailure() {
      Err?
    }

    function PropagateFailure<U>(): Result<U>
      requires Err?
    {
      Err(error)
    }

    function Extract(): T
      requires Ok?
    {
      value
    }
  }
}
