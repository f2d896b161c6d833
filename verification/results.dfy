/** Optional values, for the source's `None` returns, and results that may
    carry the message of a raised `ValueError`. */
module Results {
  datatype Option<T> = None | Some(value: T)

  datatype Result<T> = Ok(value: T) | Err(message: string)
}
