/** Optional host values and the outcome of a computation that may throw. */
module Options {

  /** A host value that may be absent (`undefined` in the browser). */
  datatype Option<+T> = None | Some(value: T)

  /** A computation that either yields a value or throws an error. */
  datatype Result<+T> = Ok(value: T) | Thrown(error: string)
}
