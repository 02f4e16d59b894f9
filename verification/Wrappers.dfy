/** Small result types shared by the other modules. */
module Wrappers {

  /** A value that may be missing: a nullable column, an absent row. */
  datatype Option<+T> = None | Some(value: T)

  /** JavaScript's `o ?? default`. */
  function Or<T>(o: Option<T>, default: T): T {
    if o.Some? then o.value else default
  }
}
