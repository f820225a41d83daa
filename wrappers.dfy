/** Optional values (JavaScript's undefined / SQL NULL) and results of store statements. */
module Wrappers {

  datatype Option<+T> = None | Some(value: T) {

    /** This value if there is one, otherwise `other` (SQL's COALESCE of two values). */
    function OrElse(other: Option<T>): Option<T> {
      match this
      case Some(_) => this
      case None => other
    }
  }

  datatype Result<+R, +E> = Success(value: R) | Failure(error: E)
}
