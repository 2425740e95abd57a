/** The Python exceptions the modelled code can raise, and a result type
    that carries either a value or one of them. */
module Results {

  /** An exception raised by the modelled Python code. */
  datatype PyError =
    | UnboundLocalError(name: string)   // a local read before any assignment
    | ValueError(message: string)       // raised explicitly or by numpy
    | IndexError(index: int, size: int) // numpy: index out of bounds for axis 0

  datatype Result<+T> = Ok(value: T) | Err(error: PyError)

  /** A Python local that is either unbound or holds a value. */
  datatype Option<+T> = None | Some(value: T)
}
