/** Failure-carrying datatypes shared by the AtomicArray and LogScanner models.
    Java exceptions become `Err` values and Java `null` becomes `Null`. */
module Outcomes {

  /** The exceptions the modelled Java code can raise. */
  datatype Error =
    | NullPointer           // java.lang.NullPointerException
    | IndexOutOfBounds      // ArrayIndexOutOfBoundsException / IndexOutOfBoundsException
    | NoSuchElement         // java.util.NoSuchElementException
    | UnsupportedOperation  // java.lang.UnsupportedOperationException
    | InvalidHeaderLength   // the header-length validator rejected its argument

  /** The value of a call that either returns normally or throws. */
  datatype Result<+R> = Ok(value: R) | Err(error: Error)

  /** An optional value, for a Java method documented to return null on absence. */
  datatype Option<+R> = None | Some(value: R)

  /** A Java reference argument that may be null. */
  datatype Nullable<+R> = Null | NonNull(value: R)
}
