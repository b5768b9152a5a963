/** Outcomes of operations that may throw, and references that may be null. */
module Results {

  /** `Err(message)` stands for the exception the operation throws. */
  datatype Result<T> = Ok(value: T) | Err(message: string)

  /** `None` stands for a null reference. */
  datatype Option<T> = None | Some(value: T)
}
