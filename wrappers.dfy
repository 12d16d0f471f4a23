/** Optional values and results that carry either a value or the exception that ended the call. */
module Wrappers {

  datatype Option<+T> = None | Some(value: T)

  datatype Result<+T, +E> = Ok(value: T) | Failure(error: E)
}

/** The Java runtime exceptions the parser can end with. */
module JavaExceptions {

  datatype Fault =
    | ArrayIndexOutOfBounds  // an array read past its end
    | IndexOutOfBounds       // a list asked for an element it does not have
}
