/** Optional values and error-carrying results.

    A missing cell of the movie table (a pandas NaN) is `None`; an operation
    that raises on bad data returns `Failure`.
 */
module Optional {

  /** A value that may be absent. */
  datatype Option<+T> = None | Some(value: T)

  /** Either a computed value or the error that stopped the computation. */
  datatype Result<+T, +E> = Success(value: T) | Failure(error: E)
}
