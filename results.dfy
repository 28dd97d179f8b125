/** Optional values and results with an error, the two shapes the Python code
    expresses with `None` and with a raised exception. */
module Results {

  datatype Option<+T> = None | Some(value: T)

  datatype Result<+T, +E> = Ok(value: T) | Err(error: E)
}
