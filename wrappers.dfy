/** Optional values, results and the Java exceptions the modelled code can raise. */
module Wrappers {
  datatype Option<T> = None | Some(value: T)

  /** The unchecked exceptions thrown by the kernel, named after their Java classes. */
  datatype Exception =
    | IllegalArgument
    | IllegalState
    | NullPointer
    | IndexOutOfBounds
    | NoSuchElement
    | Runtime(message: string)

  datatype Result<T> = Ok(value: T) | Err(error: Exception)

  /** The outcome of a call whose normal result is `void` or is returned separately. */
  datatype Outcome = Pass | Fail(error: Exception)

  /** Some element of a non-empty set: the next element of a hash-set iteration. */
  method Pick<T>(s: set<T>) returns (x: T)
    requires s != {}
    ensures x in s
  {
    x :| x in s;
  }

  /** Splits the next element of a hash-set iteration off a non-empty set. */
  method Take<T>(s: set<T>) returns (x: T, rest: set<T>)
    requires s != {}
    ensures x in s && rest == s - {x} && |rest| < |s|
  {
    x := Pick(s);
    rest := s - {x};
  }
}
