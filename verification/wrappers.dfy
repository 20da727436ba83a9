/** Optional values and results with an error, used wherever the game logic
    either produces something or gives up. */
module Wrappers {

  /** A value that may be absent; an omitted JSON key or a skipped form field. */
  datatype Option<+T> = None | Some(value: T)

  /** Either a value or the reason none was produced. */
  datatype Result<+R, +E> = Success(value: R) | Failure(error: E)
}
