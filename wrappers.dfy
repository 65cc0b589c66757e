/** Optional values and error results, standing for the `null` returns and
    the exceptions of the C# code. */
module Wrappers {

  /** `None` stands for a C# `null` reference. */
  datatype Option<+T> = None | Some(value: T) {
    function GetOr(default: T): T {
      match this
      case Some(v) => v
      case None => default
    }
  }

  /** `Err` stands for an exception the C# code throws, named by `Fault`. */
  datatype Result<+T> = Ok(value: T) | Err(fault: Fault)

  /** The .NET exceptions the modelled code can throw. */
  datatype Fault =
    | ArgumentOutOfRange     // e.g. String.Substring with a negative length
    | ArgumentEmpty          // String.Replace with an empty old value
    | NullReference          // member access on a null reference
    | KeyNotFound            // Dictionary indexer with an absent key
    | DuplicateKey           // Dictionary.Add with a present key
    | FileNotFound           // FileInfo.Length or File.Move on a missing file
}
