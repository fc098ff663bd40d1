/** The JavaScript `null` / `undefined` results of the solvers are modelled by
    `None`; a present value is `Some(value)`. */
module Options {

  datatype Option<+T> = None | Some(value: T) {

    /** The value, or `default` when absent (the `?? default` of the source). */
    function GetOr(default: T): T {
      match this
      case Some(v) => v
      case None => default
    }
  }
}
