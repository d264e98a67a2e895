/** Success-or-error values, the counterpart of C++ std::expected. */
module Expected {

  datatype Option<+T> = None | Some(value: T)

  /** std::expected<T, E>: a value or an error. */
  datatype Result<+T, +E> = Ok(value: T) | Err(error: E)

  /** std::expected<void, E>: success without a value, or an error. */
  datatype Status<+E> = Done | Failed(error: E)
}
