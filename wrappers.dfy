/** An optional value: PHP's `null` / `false` results become `None`. */
module Wrappers {
  datatype Option<+T> = None | Some(value: T)
}
