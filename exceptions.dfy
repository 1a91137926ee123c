/** The three typed failures every container of the library raises, and the
    value-level stand-ins for "return a value or throw". */
module Exceptions {

  /** index_out_of_bound, container_is_empty and invalid_iterator. */
  datatype Error = IndexOutOfBound | ContainerIsEmpty | InvalidIterator

  /** A call that either returns a value or throws one of the three errors. */
  datatype Result<+R> = Ok(value: R) | Err(error: Error)

  /** A call returning void that may throw. */
  datatype Outcome = Done | Fail(error: Error)
}
