/** Linux errno values. */
module Errno {
  const EPERM: int := 1
  const ENOENT: int := 2
  const EIO: int := 5
  const EACCES: int := 13
  const EFAULT: int := 14
  const EEXIST: int := 17
  const EXDEV: int := 18
  const ENOTDIR: int := 20
  const EISDIR: int := 21
  const EINVAL: int := 22
  const ENAMETOOLONG: int := 36
  const ENOSYS: int := 38
  const ENOTEMPTY: int := 39
  const ELOOP: int := 40
  const EPROTONOSUPPORT: int := 93
  const EOPNOTSUPP: int := 95
}
