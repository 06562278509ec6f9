/** Identifiers, optional values and the failures shared by the freet, user and comment tables. */
module Common {

  /** MongoDB ObjectIds, modelled as natural numbers. */
  type UserId = nat
  type FreetId = nat
  type CommentId = nat

  /** A value that may be absent: a `null` stored field or a query that matched nothing. */
  datatype Option<+T> = None | Some(value: T)

  /** The outcome of an operation that can throw. */
  datatype Result<+R, +E> = Success(value: R) | Failure(error: E)

  /**
   * The ways an operation of the freet store can fail. The source never raises
   * these itself: each one is the TypeError thrown when a lookup returned
   * `null` and a field of that `null` is then read.
   */
  datatype StoreError =
    | MissingFreet  // no freet has the given id
    | MissingUser   // no user has the given id or username
}
