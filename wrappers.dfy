/** A value that may be absent: the ETA of the first chunk, a report for a failed chunk, a parse that fails. */
module Wrappers {

  datatype Option<+T> = None | Some(value: T)
}
