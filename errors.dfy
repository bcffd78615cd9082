/**
 * Failure values for the exceptions the queue, the graphs and Prim's
 * algorithm throw, and the wrappers that carry them.
 */
module Errors {

  /** One constructor per way an operation of the core can fail. */
  datatype Error =
    | IndexOutOfRange            // IndexOutOfBoundsException from an ArrayList access
    | DuplicateElement           // UnsupportedOperationException: element already queued
    | EmptyQueue                 // UnsupportedOperationException: extraction from an empty queue
    | ElementNotFound            // NoSuchElementException from updatePriority
    | VertexNotFound             // NoSuchElementException naming a missing vertex
    | EdgeNotFound               // NoSuchElementException naming a missing edge
    | NullDereference            // NullPointerException (a lookup that yields null is used)
    | InvalidArgument            // IllegalArgumentException: null graph given to Prim
    | UnsupportedOrientation     // UnsupportedOperationException: Prim on an oriented graph
    | UnsupportedNegativeWeight  // UnsupportedOperationException: Prim meets a negative weight

  /** The outcome of an operation that returns nothing (a Java `void` method). */
  datatype Outcome = Pass | Fail(error: Error)

  /** The outcome of an operation that returns a value. */
  datatype Result<T> = Ok(value: T) | Err(error: Error)

  /** A Java reference that may be null (a map lookup that misses). */
  datatype Option<T> = None | Some(value: T)
}
