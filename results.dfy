/** Option and Result values standing for JavaScript's `undefined` and for
    thrown errors. */
module Results {

  datatype Option<+T> = None | Some(value: T)

  datatype Result<+R, +E> = Success(value: R) | Failure(error: E)
}
