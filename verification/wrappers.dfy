/** Optional values: Python's `None` or a present value. */
module Wrappers {

  datatype Option<+T> = None | Some(value: T)

  /** Python's `x or d` on an optional value: `None` and the type's falsy
      value `zero` (0, 0.0, "") both fall back to `d`. */
  function Or<T(==)>(x: Option<T>, zero: T, d: T): (r: T)
    ensures x.None? ==> r == d
    ensures x.Some? && x.value == zero ==> r == d
    ensures x.Some? && x.value != zero ==> r == x.value
  {
    if x.Some? && x.value != zero then x.value else d
  }
}
