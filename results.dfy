/** Failure-carrying results for the exceptions the shader loader throws. */
module Results {

  /** The exceptions that abort loading a shader. */
  datatype LoadError =
    | InvalidOperation(message: string)  // InvalidOperationException
    | NotSupported(message: string)      // NotSupportedException
    | IndexOutOfRange                    // IndexOutOfRangeException from an array index
    | ArgumentOutOfRange                 // ArgumentOutOfRangeException from a syntax list index

  datatype Option<T> = None | Some(value: T)

  /** The value a loading step produces, or the exception it throws. */
  datatype Result<T> = Ok(value: T) | Err(error: LoadError)

  /** The outcome of a loading step that only changes state. */
  datatype Outcome = Pass | Fail(error: LoadError)
}
