/** The outcome of an operation that the code can end with an
    exception: either a value or the error it raises. */
module Results {

  datatype Result<T, E> = Ok(value: T) | Err(error: E)
}
