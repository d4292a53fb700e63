/**
 * An optional value usable with `:-`. A node's step is `None` when the node
 * would block for ever (its scripted input runs out) or would write past a
 * buffer; otherwise it is `Some` of the state the step ends in.
 */
module Options {

  datatype Option<+T> = None | Some(value: T) {

    predicate IsFailure() {
      None?
    }

    function PropagateFailure<U>(): Option<U>
      requires None?
    {
      None
    }

    function Extract(): T
      requires Some?
    {
      value
    }
  }
}
