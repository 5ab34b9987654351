/** Rust's `Option`, as the model uses it. */
module Wrappers {

  /**
   An optional value: a file's `extension()` and `parent()` component, and
   the outcome of the slot update, which is `None` when the slot is kept.
   */
  datatype Option<+T> = None | Some(value: T) {

    /** The held value, or `default` when there is none (Rust's `unwrap_or`). */
    function GetOr(default: T): (r: T)
      ensures Some? ==> r == value
      ensures None? ==> r == default
    {
      match this
      case Some(v) => v
      case None => default
    }
  }
}
