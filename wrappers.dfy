/** Optional values and results with an error, used wherever the Python code
    returns None or raises. */
module Wrappers {

  datatype Option<+T> = None | Some(value: T)

  datatype Result<+R, +E> = Success(value: R) | Failure(error: E)

  /** The exceptions the builder raises or lets through from the regex engine. */
  datatype Error =
    | ValueError(message: string)   // raised by the builder itself
    | IndexError                    // out-of-range index into a string or a match
    | AttributeError                // a method called on Python's None
    | PatternError                  // re.compile rejected the rendered pattern
}
