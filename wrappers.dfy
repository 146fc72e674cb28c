/** The Option type used wherever the JavaScript code returns `null` or
    `undefined` instead of a value. */
module Wrappers {

  datatype Option<+T> = None | Some(value: T)

  /** The supplied value, or `default` when it was left out. */
  function Or<T>(o: Option<T>, default: T): T {
    if o.Some? then o.value else default
  }
}
