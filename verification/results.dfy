/** Optional values and success/failure results, used for dictionary
    lookups that may miss and for operations that may fail. */
module Results {

  datatype Option<+T> = None | Some(value: T)

  datatype Result<+T, +E> = Ok(value: T) | Err(error: E)
}
