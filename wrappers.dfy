/** Option and Result values shared by every module, and the Python
    exceptions the modelled code raises. */
module Wrappers {

  /** Python's `None` or a value. */
  datatype Option<+T> = None | Some(value: T)

  /** The exceptions raised (and not caught) by the modelled operations. */
  datatype Error =
    | ValueError    // raised by the user-authentication service on a bad email or token
    | StorageError  // raised by the durable session store's save()

  /** A call that either returns a value or raises an exception. */
  datatype Result<+T> = Success(value: T) | Failure(error: Error)
}
