/** Failure outcomes of the dynamic array: the exceptions the container
    throws become explicit values. */
module Results {

  /** The kinds of failure a darray operation can signal. */
  datatype Error =
    | CapacityExceeded     // std::bad_array_new_length: a request beyond max_size
    | ConstructionFailure  // an element constructor threw
    | OutOfRange           // std::out_of_range from a checked accessor

  /** A value, or the failure that prevented it. */
  datatype Result<+R> = Ok(value: R) | Err(error: Error)

  /** The outcome of an operation that returns nothing on success. */
  datatype Outcome = Done | Failed(error: Error)
}
