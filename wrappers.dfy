/** Optional values, results and the failures the core can abort with. */
module Wrappers {

  datatype Option<T> = None | Some(value: T)

  /** The conditions under which the core stops an operation: the Go code
      reports them with log.Panic or runtime.Goexit. */
  datatype Error =
    | AlreadyExists  // InitBlockChain found an existing store
    | NotFound       // ContinueBlockChain found no store
    | CorruptChain   // a key the chain needs is missing from the store
    | EncodingError  // a block could not be encoded or decoded

  datatype Result<T> = Ok(value: T) | Err(error: Error)

  /** What is left of an operation after a call to Handle. */
  datatype Outcome = Pass | Fail(error: Error)
}
