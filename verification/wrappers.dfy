/** `Option` and `OrElse`, shared by the record store and the statistics. */
module Wrappers {

  /** The conventional Some/None datatype, used where the Go code returns an
      `ok`/`err` pair next to a value. */
  datatype Option<+T> = None | Some(value: T)

  /** The first present value of the two, preferring `first`. */
  function OrElse<T>(first: Option<T>, fallback: Option<T>): Option<T>
  {
    if first.Some? then first else fallback
  }
}
