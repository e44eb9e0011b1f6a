/** Failure values for the model: the absence of a parse and the two Python
    exceptions that the IDF computation can raise. */
module Results {

  datatype Option<+T> = None | Some(value: T)

  /** The runtime errors `get_idf` can raise on a corpus whose counts were
      loaded from a file: a division by `1 + count` when that is zero, and the
      logarithm of a ratio that is not positive. */
  datatype Fault = ZeroDivisionError | MathDomainError

  datatype Result<+T> = Ok(value: T) | Err(error: Fault)
}
