/** The optional value used by the string and regular-expression model:
    `None` stands for JavaScript's "not found" (`-1` from `indexOf`, `null`
    from a failed regular-expression match). */
module Wrappers {

  datatype Option<+T> = None | Some(value: T) {

    predicate IsFailure() {
      None?
    }

    function PropagateFailure<U>(): Option<U>
      requires None?
    {
      None
    }

    function Extract(): T
      requires Some?
    {
      value
    }
  }
}
