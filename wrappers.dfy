/** Optional values, request parameters and success-or-error results used throughout the model. */
module Wrappers {

  /** A value that may be absent: a nil attribute, a `find_by` miss. */
  datatype Option<+T> = None | Some(value: T) {
    function GetOr(default: T): T {
      match this
      case Some(v) => v
      case None => default
    }
  }

  /**
   * One permitted request parameter: the key not sent, sent as null, or sent
   * with a value. Mass assignment skips an absent key but assigns a null.
   */
  datatype Param<+T> = Absent | Null | Given(value: T) {
    /** The attribute after assigning this parameter over `current`. */
    function Apply(current: Option<T>): Option<T> {
      match this
      case Absent => current
      case Null => None
      case Given(v) => Some(v)
    }

    /** The value as a new record sees it: nil unless given. */
    function ToOption(): Option<T> {
      Apply(None)
    }
  }

  /** The outcome of an ActiveRecord `save`/`update`: the saved record or its errors. */
  datatype Result<+R, +E> = Success(value: R) | Failure(error: E)
}
