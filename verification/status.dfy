/**
 The failure-carrying datatypes shared by the model: the two exceptions the
 printing filter throws, an optional value for fetches that may fail, and a
 result type for operations that may throw.
 */
module Status {

  /** The eckit exceptions raised by the printing filter. */
  datatype Error =
    | BadValue(message: string)      // an invalid location window
    | BadParameter(message: string)  // a variable of a type that cannot be printed

  datatype Option<+T> = None | Some(value: T)

  datatype Result<+T> = Success(value: T) | Failure(error: Error)
}
