/** Option and result types shared by every module of the model. */
module Wrappers {

  /** A nullable Java reference: `None` stands for `null`. */
  datatype Option<+T> = None | Some(value: T)

  /** The unchecked exceptions the modelled Java code throws. */
  datatype Error =
    | IllegalState            // java.lang.IllegalStateException
    | UnsupportedOperation    // java.lang.UnsupportedOperationException
    | NullPointer             // java.lang.NullPointerException

  /** A Java call that either returns a value or throws. */
  datatype Result<+T> = Ok(value: T) | Err(error: Error)

  /** A Java `void` call that either returns normally or throws. */
  datatype Status = Done | Thrown(error: Error)
}
