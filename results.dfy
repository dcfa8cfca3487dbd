/** Optional values and success-or-error results, standing in for C#'s
    nullable references and thrown exceptions. */
module Results {

  /** `None` is what `FirstOrDefault` yields when no element matches. */
  datatype Option<+T> = None | Some(value: T)

  /** `Err` is an exception raised by the service or by the persistence layer. */
  datatype Result<+T, +E> = Ok(value: T) | Err(error: E)
}
