/** Absent values: Python's None, and the NaN pandas uses for a missing cell. */
module Wrappers {

  datatype Option<+T> = None | Some(value: T)
}
