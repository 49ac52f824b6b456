/** Optional values and the three-state fields of a partial-update request. */
module Wrappers {

  /** A value that may be absent: a nullable column, or an optional input field. */
  datatype Option<+T> = None | Some(value: T)

  /** One field of a partial-update request body. `Unset` is a field the request
      left out; `Set(None)` is a field supplied as an explicit null; `Set(Some(v))`
      is a field supplied with the value `v`. Only `Set` fields are written. */
  datatype FieldPatch<+T> = Unset | Set(value: Option<T>) {

    /** The column value after this field has been applied to `current`. */
    function ApplyTo(current: Option<T>): Option<T> {
      match this
      case Unset => current
      case Set(v) => v
    }
  }
}
