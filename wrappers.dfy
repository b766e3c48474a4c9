/** Null-or-value and value-or-exception results shared by the whole model. */
module Wrappers {

  /** A Java reference that may be null. */
  datatype Option<+T> = None | Some(value: T)

  /** The Java exceptions the modelled code throws. */
  datatype Failure =
    | NoSuchElement            // java.util.NoSuchElementException
    | ConcurrentModification   // java.util.ConcurrentModificationException
    | IllegalState             // java.lang.IllegalStateException
    | IllegalArgument          // java.lang.IllegalArgumentException
    | NullPointer              // java.lang.NullPointerException (auto-unboxing of null)
    | UnsupportedOperation     // java.lang.UnsupportedOperationException
    | OutOfMemory              // java.lang.OutOfMemoryError
    | ClassCast                // java.lang.ClassCastException

  /** A call that either returns a value or throws. */
  datatype Result<+T> = Ok(value: T) | Err(error: Failure)
}
