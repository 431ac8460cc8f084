/** The usual Some/None wrapper, standing for a JavaScript value that may be null or undefined. */
module Optional {

  datatype Option<T> = None | Some(value: T) {

    /** The payload, or `default` when absent (JavaScript's `x || default` on a defined-or-undefined field). */
    function GetOr(default: T): T {
      match this
      case Some(v) => v
      case None => default
    }
  }
}
