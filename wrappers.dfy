/** Small result types shared by the store's components. */
module Wrappers {

  datatype Option<+T> = None | Some(value: T)

  /** What PHP raises: an `Exception` the callers catch, or an engine `TypeError`. */
  datatype Error = Exception(message: string) | TypeError(message: string)

  /** The outcome of a PHP call that either returns a value or throws. */
  datatype Outcome<+T> = Returned(value: T) | Threw(error: Error)
}
