/** Option and Result values, and the exceptions of the .NET runtime that the
    modelled code can raise. A thrown exception is modelled as an `Err` value. */
module Wrappers {

  /** A nullable reference: `None` is C#'s `null`. */
  datatype Option<+T> = None | Some(value: T) {
    function GetOr(default: T): T
    {
      match this
      case Some(v) => v
      case None => default
    }
  }

  /** The .NET exceptions that escape from the modelled operations. */
  datatype Exception =
    | IndexOutOfRange      // array index beyond its length
    | ArgumentOutOfRange   // substring with a negative length
    | NullReference        // member access through null
    | IOFailure            // a directory or file that cannot be read
    | DecodeFailure        // an icon or image that cannot be decoded

  /** Either a returned value or a thrown exception. */
  datatype Result<+T> = Ok(value: T) | Err(error: Exception)
}
