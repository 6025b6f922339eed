/** JavaScript values the page works with that have no direct Dafny counterpart. */
module JsValues {

  /** A value that may be `undefined`: a missing property, or a function that falls off its end. */
  datatype Option<+T> = None | Some(value: T)
}
