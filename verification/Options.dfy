/** A value that may be absent: moment's `Moment | null` and TypeScript's optional fields. */
module Options {

  datatype Option<+T> = None | Some(value: T) {

    /** The value, or `default` when absent. */
    function GetOr(default: T): T {
      match this
      case Some(v) => v
      case None => default
    }
  }
}
