/** The optional-value datatype used for PHP's `null` / `false` results and
    for parameters whose default is `null`. It supports `:-` so that a
    reader can stop at the first thing it cannot match. */
module Wrappers {

  datatype Option<+T> = None | Some(value: T) {

    predicate IsFailure() {
      None?
    }

    function PropagateFailure<U>(): Option<U>
      requires None?
    {
      None
    }

    function Extract(): T
      requires Some?
    {
      value
    }
  }
}
