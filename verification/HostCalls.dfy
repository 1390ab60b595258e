/** How calls end. */
module HostCalls {

  /** `None` stands for a panic or for a missing value. */
  datatype Option<+T> = None | Some(value: T)

  /** The host undoes every storage change unless the call ends in `Done`. */
  datatype Outcome<+T, +E> = Done(value: T) | Failed(error: E) | Panicked {

    function Propagate<U>(): Outcome<U, E>
      requires !Done?
    {
      if Failed? then Failed(error) else Panicked
    }
  }
}
