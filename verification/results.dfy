/** Value-or-error wrappers used by the utilities. */
module Results {

  /** An optional value. */
  datatype Option<+T> = None | Some(value: T)

  /** Geode's `Result<T>`: a value, or an error carrying a message. */
  datatype Result<+T> = Ok(value: T) | Err(error: string)
}
