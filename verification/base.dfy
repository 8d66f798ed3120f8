/** Failure-carrying values shared by every module of the model.

    `Option` stands for a Python value that may be `None`; `Result` stands for a
    computation that may raise, the `Err` message being what `str(e)` of the
    raised exception would give.
 */
module Base {

  datatype Option<+T> = None | Some(value: T) {

    /** The value, or `default` for `None` (Python's `d.get(key, default)`). */
    function GetOr(default: T): T {
      match this
      case Some(v) => v
      case None => default
    }
  }

  datatype Result<+T> = Ok(value: T) | Err(message: string)
}
