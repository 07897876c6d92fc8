/** The failures the tensor reports, tagged with the C++ exception class it throws. */
module Outcomes {

  /** std::invalid_argument, std::out_of_range, std::runtime_error, std::domain_error. */
  datatype ErrorKind = InvalidArgument | OutOfRange | RuntimeError | DomainError

  /** The value of an operation that either returns or throws. */
  datatype Result<T> = Ok(value: T) | Err(kind: ErrorKind)

  /** The outcome of an in-place operation that either completes or throws. */
  datatype Outcome = Pass | Fail(kind: ErrorKind)
}
