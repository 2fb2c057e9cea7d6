/** The absent-or-present value used wherever the source reads something that may be
    `undefined` or `null` (an optional chain, a missing selection neighbour). */
module Wrappers {

  datatype Option<+T> = None | Some(value: T)
}
