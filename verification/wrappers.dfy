/** The optional-value datatype the rest of the model uses. `None` stands for
    JavaScript's `undefined`, `null` and `NaN` where the program checks for them. */
module Wrappers {

  datatype Option<+T> = None | Some(value: T) {

    /** The wrapped value, or `default` when there is none. */
    function GetOr(default: T): T {
      match this
      case Some(v) => v
      case None => default
    }
  }
}
