/** Error numbers (include/tianole/errno.h); functions return them negated. */
module Errno {
  const ENOENT := 2
  const EAGAIN := 11
  const ENOMEM := 12
  const EBUSY := 16
  const EEXIST := 17
  const ENOTDIR := 20
  const EINVAL := 22
  const ENOSPC := 28
  const ENAMETOOLONG := 36
}
