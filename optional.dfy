/** A value that may be missing: a key absent from a Python dict, or a
    parameter left at `None`. */
module Optional {

  datatype Option<+T> = None | Some(value: T) {

    /** `d.get(key, default)` */
    function GetOr(default: T): T {
      match this
      case Some(v) => v
      case None => default
    }
  }
}
