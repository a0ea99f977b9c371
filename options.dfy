/** The optional value used throughout the model: JavaScript's null/undefined/NaN and Kotlin's nullable types. */
module Options {

  datatype Option<+T> = None | Some(value: T) {

    /** The wrapped value, or `default` when there is none. */
    function GetOr(default: T): T {
      match this
      case Some(v) => v
      case None => default
    }
  }
}
