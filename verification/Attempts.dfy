/** Results that carry an error and propagate it. */
module Attempts {

  datatype Attempt<+T, +E> = Done(value: T) | Failed(error: E) {
    predicate IsFailure() { Failed? }
    function PropagateFailure<U>(): Attempt<U, E>
      requires Failed?
    {
      Failed(error)
    }
    function Extract(): T
      requires Done?
    {
      value
    }
  }
}
