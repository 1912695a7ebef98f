module Wrappers {
  type byte = n: int | 0 <= n < 256

  datatype Option<+T> = None | Some(value: T) {
    function Or(other: Option<T>): Option<T> {
      if this.Some? then this else other
    }
  }
}
