/** Optional values, results and ORM lookup outcomes shared by every module of the model. */
module Results {

  /** A value that may be absent: Python's `None` or a missing row. */
  datatype Option<+T> = None | Some(value: T)

  /** The outcome of an operation that raises on failure in Python. */
  datatype Result<+T, +E> = Success(value: T) | Failure(error: E)

  /** The three outcomes of an ORM `get`: no row, one row, or several rows. */
  datatype Fetch<+T> = DoesNotExist | Found(value: T) | MultipleObjectsReturned
}
