/** Ruby's `nil` and "some value" as a datatype. */
module Options {

  datatype Option<+T> = None | Some(value: T) {

    /** Ruby's `a || b` on values that are never `false`: the first non-nil one. */
    function Or(other: Option<T>): Option<T> {
      match this
      case Some(_) => this
      case None => other
    }

    /** The value, or `default` when nil. */
    function GetOr(default: T): T {
      match this
      case Some(v) => v
      case None => default
    }
  }
}
