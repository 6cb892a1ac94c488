/** Failure-carrying return shapes, standing for the exceptions and the
    null/false returns of the container library. */
module Wrappers {

  /** A value or nothing: `TryGetValue` misses and the services' `null`. */
  datatype Option<T> = None | Some(value: T)

  /** A value or the exception an operation throws. */
  datatype Result<T, E> = Success(value: T) | Failure(error: E)

  /** Completion of a `void` operation that may throw. */
  datatype Outcome<E> = Pass | Fail(error: E)

  /** The exceptions the core throws. */
  datatype Error =
    | DuplicateKey    // ArgumentException: HashTable.Add and the services' Crear on an existing key
    | KeyNotFound     // KeyNotFoundException: the hash table's indexer getter on a missing key
    | EmptyContainer  // InvalidOperationException: Pop, Peek and Dequeue on an empty container
}
