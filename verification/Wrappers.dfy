/** Results that may be absent, used where the C code returns NULL, -1 or an
    error code. */
module Wrappers {
  datatype Option<+T> = None | Some(value: T)
}
