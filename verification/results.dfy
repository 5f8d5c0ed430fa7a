/** Failure-carrying values used where the Go code either returns an error
    or ends the process with `log.Fatal`. */
module Results {

  /** Either a value or the error that stopped the computation. */
  datatype Result<+T, +E> = Ok(value: T) | Err(error: E)
}
