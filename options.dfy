/** An optional value: `None` stands for JavaScript's `undefined` or a missing element. */
module Options {

  datatype Option<T> = None | Some(value: T) {

    /** The value, or `default` when there is none. */
    function GetOr(default: T): T {
      match this
      case Some(v) => v
      case None => default
    }
  }
}
