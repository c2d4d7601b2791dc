/** Java's null references and exceptions, as values. */
module Outcomes {

  /** A reference that may be null. */
  datatype Option<+T> = None | Some(value: T)

  /** The unchecked exceptions the three containers throw. */
  datatype Exception =
    | IndexOutOfBounds
    | NoSuchElement
    | ConcurrentModification
    | IllegalState
    | IllegalArgument

  /** How a Java call ended: a normal return carrying a value, or a thrown exception. */
  datatype Outcome<+T> = Normal(value: T) | Thrown(exception: Exception)

  /** A call on a mutable container: the container's state once the call is over
      (a call may mutate before it throws) and how the call ended. */
  datatype Call<+S, +T> = Call(state: S, outcome: Outcome<T>)
}
