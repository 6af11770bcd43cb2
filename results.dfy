/** Optional values and success-or-error results, standing in for the
    `null` returns and thrown errors of the TypeScript sources. */
module Results {

  datatype Option<+T> = None | Some(value: T)

  datatype Result<+T, +E> = Ok(value: T) | Err(error: E)
}
