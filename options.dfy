/** Optional values and results with an error, as the engine's operations return them. */
module Options {
  datatype Option<T> = None | Some(value: T)

  datatype Result<T, E> = Ok(value: T) | Err(error: E)
}
