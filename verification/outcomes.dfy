/** Result and option values standing in for the container's null pointers,
    exceptions and process abort. */
module Outcomes {

  /** A possibly absent value; `None` plays the part of a null map pointer. */
  datatype Option<+T> = None | Some(value: T)

  /** The three ways an operation of the container can fail:
      `Overflow` is the "nanomap is full" overflow error raised by the subscript operator,
      `OutOfRange` is the "item not found" error raised by `at`,
      `Aborted` is the process abort of `erase` when handed the end iterator. */
  datatype MapError = Overflow | OutOfRange | Aborted

  /** Either a value or the error the source raises instead of returning. */
  datatype Result<+R> = Success(value: R) | Failure(error: MapError)
}
