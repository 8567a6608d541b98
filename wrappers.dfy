/** Small value wrappers shared by the allocator models. */
module Wrappers {

  /** An optional value; `None` plays the part of a null pointer or a "not found" sentinel. */
  datatype Option<+T> = None | Some(value: T)
}
