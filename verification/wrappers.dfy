/** Option and Result, for the codec's recoverable and fatal outcomes. */
module Wrappers {
  datatype Option<+T> = None | Some(value: T)

  /** The fatal conditions of compress and decompress that the model keeps. */
  datatype Error =
    | MissingDictionary   // the dictionary file is absent or empty
    | NegativeRunLength   // a capitalisation run decodes to a negative count

  datatype Result<+T> = Ok(value: T) | Err(error: Error)
}
