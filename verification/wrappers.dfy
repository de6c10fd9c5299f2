/** Optional values, used for the schedule's optional `python_path` and `repository_path`. */
module Wrappers {

  /** The conventional Some/None datatype standing in for Python's `None`. */
  datatype Option<+T> = None | Some(value: T)
}
