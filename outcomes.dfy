/** Values standing for the exceptions the Kotlin code and java.util.prefs raise. */
module Outcomes {

  /** A nullable value: None is Kotlin's `null`. */
  datatype Option<+T> = None | Some(value: T)

  /** The exceptions this layer can raise or let through, one constructor per kind. */
  datatype Failure =
    | IllegalState(message: string)     // IllegalStateException, also Kotlin's error(...)
    | IllegalArgument(message: string)  // IllegalArgumentException, Kotlin's require(...)
    | NullPointer                       // Kotlin's `!!` applied to null
    | ClassCast(target: string)         // a failing `as` cast to the named class
    | Serialization(input: string)      // the codec could not decode `input`

  /** Either a normal return or the exception that ended the call. */
  datatype Result<+T> = Ok(value: T) | Err(error: Failure)
}
