/** The optional value shared by every module: `undefined`/`null` on the JavaScript side. */
module Maybe {
  datatype Option<+T> = None | Some(value: T) {
    function GetOr(default: T): T {
      match this
      case Some(v) => v
      case None => default
    }
  }
}
