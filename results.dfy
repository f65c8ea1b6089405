/** Optional values and the error result shared by the three chunkers. */
module Results {

  datatype Option<T> = None | Some(value: T)

  /** A chunker either returns its value or raises `ValueError(message)`. */
  datatype Result<T> = Ok(value: T) | InvalidArgument(message: string)
}
