/** A value that may be missing: JavaScript's `undefined` for an absent array
    element, an absent record field or a failed `Map.get`. */
module Wrappers {

  datatype Option<+T> = None | Some(value: T)
}
