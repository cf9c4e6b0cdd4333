/** An optional value: the `None` / not-`None` of the modelled programs. */
module Wrappers {
  datatype Option<+T> = None | Some(value: T)
}
