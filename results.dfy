/** Option and Result: a PHP `null`/`false` becomes `None`, a thrown exception a `Failure`. */
module Results {

  datatype Option<+T> = None | Some(value: T)

  datatype Result<+T, +E> = Success(value: T) | Failure(error: E)
}
