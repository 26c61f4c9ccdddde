/** Optional values. */
module Options {
  datatype Option<+T> = None | Some(value: T)
}

/** Error codes of <errno.h>. */
module Errno {
  const EIO := 5
  const ENOMEM := 12
  const EINVAL := 22
}
