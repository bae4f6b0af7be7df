/** Failure-carrying datatypes shared by the model: Python's `None` becomes `Option.None`,
    and the extractor's three distinct early exits become a `Result` failure. */
module Wrappers {

  datatype Option<+T> = None | Some(value: T)

  datatype Result<+R, +E> = Success(value: R) | Failure(error: E) {

    /** Forgets which failure happened, keeping only whether a value was produced. */
    function ToOption(): (o: Option<R>)
      ensures o.Some? <==> Success?
      ensures o.Some? ==> o.value == value
    {
      match this
      case Success(v) => Some(v)
      case Failure(_) => None
    }
  }
}
