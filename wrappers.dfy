/** Optional values, for attributes and fields that JavaScript leaves `undefined` or `null`. */
module Wrappers {

  /** `None` stands for an absent value; usable with `:-` to stop at the first absent step. */
  datatype Option<+T> = None | Some(value: T) {

    predicate IsFailure() {
      None?
    }

    function PropagateFailure<U>(): Option<U>
      requires None?
    {
      None
    }

    function Extract(): T
      requires Some?
    {
      value
    }

    function GetOr(default: T): T {
      match this
      case Some(v) => v
      case None => default
    }
  }
}
