/** Optional values shared by the streaming and recorder models. */
module Wrappers {

  /** A value that may be absent: Python's `Optional[...]`, with `None` as absence. */
  datatype Option<+T> = None | Some(value: T)
}
