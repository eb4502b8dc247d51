/** Objective-C's `_Nullable` object pointers. */
module Nullables {

  /** `Nil` is the nil pointer; `Ref(value)` points at the object `value`. */
  datatype Nullable<T> = Nil | Ref(value: T)
}
