/** Failure-carrying result types shared by every structure of the model.
    A C++ null pointer becomes `None`, a thrown exception becomes `Failure`. */
module Wrappers {

  datatype Option<+T> = None | Some(value: T)

  /** The named exceptions thrown by the tree and hash table. */
  datatype Error = KeyExists | KeyDoesNotExist

  datatype Result<+R> = Success(value: R) | Failure(error: Error)
}
