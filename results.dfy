/** Optional values and results with an error, used for JavaScript's `null`
    returns and for the exceptions the crawlers throw. */
module Results {

  datatype Option<+T> = None | Some(value: T)

  datatype Result<+T, +E> = Success(value: T) | Failure(error: E)
}
