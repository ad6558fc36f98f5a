/** Failure-compatible Option type used for every partial operation of the model.
    `None` stands for the cases where the C++ program dereferences a null
    pointer, throws, or reads past the end of its input. */
module Wrappers {

  datatype Option<+T> = None | Some(value: T) {

    predicate IsFailure() {
      None?
    }

    function PropagateFailure<U>(): Option<U>
      requires None?
    {
      None
    }

    function Extract(): T
      requires Some?
    {
      value
    }
  }
}
