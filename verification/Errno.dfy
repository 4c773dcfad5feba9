/** The kernel's error numbers that the system calls return negated. */
module Errno {
  const EPERM: int := 1
  const ENOENT: int := 2
  const ESRCH: int := 3
  const ENOMEM: int := 12
  const EACCES: int := 13
  const EFAULT: int := 14
  const EEXIST: int := 17
  const EINVAL: int := 22
}
