/** Optional values and results with an error, standing for the C# `null`
    and for exceptions thrown to the caller. */
module Wrappers {

  datatype Option<+T> = None | Some(value: T) {
    function GetOr(default: T): T {
      match this
      case Some(v) => v
      case None => default
    }
  }

  /** The exceptions the modelled code throws to its callers. */
  datatype Error =
    | ArgumentNull          // ArgumentNullException
    | Argument              // ArgumentException
    | InvalidCast           // InvalidCastException from an unboxing cast
    | NullReference         // NullReferenceException
    | IndexOutOfRange       // IndexOutOfRangeException
    | FileNotFound          // FileNotFoundException from FileInfo.Length
    | DuplicateKey          // the store refuses a row whose key is taken

  datatype Result<+R> = Ok(value: R) | Err(error: Error)
}
