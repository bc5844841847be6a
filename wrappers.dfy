/** The "no result" signal: every routine of the kernel catches its own
    arithmetic and indexing failures and returns `None` instead. */
module Wrappers {

  datatype Option<+T> = None | Some(value: T)
}
